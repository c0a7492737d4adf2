/**
 * The two tables of the CRM database that the pipeline and the editor
 * change: `contatos` (one row per relative, keyed by its id) and
 * `relacionamentos` (the rows that link a relative to a deceased's case).
 */
module Crm {
  import opened Wrappers

  /**
   * One `contatos` row: the columns either application reads or writes.
   * A column holding SQL NULL is None.
   */
  datatype Contact = Contact(
    nome: Option<string>,
    telefone1: Option<string>,
    telefone2: Option<string>,
    telefone3: Option<string>,
    telefone4: Option<string>,
    status: Option<string>,
    notes: Option<string>,
    contacted: Option<bool>,
    statusUpdatedAt: Option<string>)

  /** One `relacionamentos` row. */
  datatype Relationship = Relationship(casoId: string, contatoId: string, tipoParentesco: Option<string>)

  /**
   * The database as the applications see it: contacts by id, and the
   * relationship rows in the order the database returns them.
   */
  class Store {
    var contacts: map<string, Contact>
    var relationships: seq<Relationship>

    constructor (contacts: map<string, Contact>, relationships: seq<Relationship>)
      ensures this.contacts == contacts && this.relationships == relationships
    {
      this.contacts := contacts;
      this.relationships := relationships;
    }
  }
}
