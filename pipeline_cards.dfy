/**
 * The kanban cards of one pipeline column (app.py, `fetch_pipeline_cards`):
 * the joined relationship rows the database returns are flattened into one
 * card per relative, with the relative's phones summarised.
 */
module PipelineCards {
  import opened Wrappers
  import opened Text

  /** What a card shows when the relative has no usable phone. */
  const NoPhone: string := "No phone"

  /** The embedded `contatos` record of a joined row. */
  datatype ContactPart = ContactPart(
    id: string,
    nome: Option<string>,
    telefone1: Option<string>,
    telefone2: Option<string>,
    telefone3: Option<string>,
    telefone4: Option<string>,
    status: Option<string>,
    notes: Option<string>)

  /** The embedded `casos` record of a joined row. */
  datatype CasePart = CasePart(id: string, nome: Option<string>, cidade: Option<string>, dataObito: Option<string>)

  /** One joined `relacionamentos` row; a missing or empty embedded record is None. */
  datatype StageRow = StageRow(tipoParentesco: Option<string>, contato: Option<ContactPart>, caso: Option<CasePart>)

  /** One card of the board. */
  datatype Card = Card(
    contatoId: string,
    contatoNome: Option<string>,
    phoneDisplay: string,
    allPhones: string,
    status: Option<string>,
    notes: Option<string>,
    casoId: Option<string>,
    casoNome: Option<string>,
    casoCidade: Option<string>,
    casoDataObito: string,
    tipoParentesco: Option<string>)

  /** The four phone columns, in field order. */
  function Phones(c: ContactPart): seq<Option<string>> {
    [c.telefone1, c.telefone2, c.telefone3, c.telefone4]
  }

  /** The first filled phone as it is stored, or NoPhone: `next((p for p in phones if p and p.strip()), 'No phone')`. */
  function PhoneDisplay(ps: seq<Option<string>>): string {
    if ps == [] then NoPhone
    else if IsFilled(ps[0]) then ps[0].value
    else PhoneDisplay(ps[1..])
  }

  /** Every filled phone as it is stored, joined with ", ". */
  function AllPhones(ps: seq<Option<string>>): string {
    Join(", ", FilledValues(ps))
  }

  /** The display phone is the first filled phone: the one at the lowest filled index. */
  lemma {:induction false} PhoneDisplayIsFirstFilled(ps: seq<Option<string>>, i: nat)
    requires i < |ps| && IsFilled(ps[i])
    requires forall j :: 0 <= j < i ==> !IsFilled(ps[j])
    ensures PhoneDisplay(ps) == ps[i].value
  {
    if i > 0 {
      PhoneDisplayIsFirstFilled(ps[1..], i - 1);
    }
  }

  /** With no filled phone the card shows NoPhone and an empty phone list. */
  lemma {:induction false} PhoneDisplayWithoutPhones(ps: seq<Option<string>>)
    requires forall j :: 0 <= j < |ps| ==> !IsFilled(ps[j])
    ensures PhoneDisplay(ps) == NoPhone
    ensures AllPhones(ps) == ""
  {
    if ps != [] {
      PhoneDisplayWithoutPhones(ps[1..]);
    }
  }

  /** The display phone is the head of the phone list whenever there is a filled phone. */
  lemma {:induction false} PhoneDisplayLeadsAllPhones(ps: seq<Option<string>>)
    requires exists j :: 0 <= j < |ps| && IsFilled(ps[j])
    ensures FilledValues(ps) != [] && PhoneDisplay(ps) == FilledValues(ps)[0]
    ensures PhoneDisplay(ps) <= AllPhones(ps)
  {
    if !IsFilled(ps[0]) {
      var j :| 0 <= j < |ps| && IsFilled(ps[j]);
      assert j > 0 && IsFilled(ps[1..][j - 1]);
      PhoneDisplayLeadsAllPhones(ps[1..]);
    }
  }

  /** No filled phone is lost: each one occurs, as stored, in the phone list. */
  lemma AllPhonesHasEveryPhone(ps: seq<Option<string>>, i: nat)
    requires i < |ps| && IsFilled(ps[i])
    ensures Contains(AllPhones(ps), ps[i].value)
  {
    var parts := FilledValues(ps);
    FilledValuesMembers(ps);
    var k :| 0 <= k < |parts| && parts[k] == ps[i].value;
    JoinHasPart(", ", parts, k);
  }

  /**
   * The card built from a row that has a contact: it carries the contact's
   * id, links a case exactly when the row has one, falls back to
   * "No linked case" and an empty city without one, and shows at most the
   * first ten characters of the date of death.
   */
  function CardOf(row: StageRow): (r: Card)
    requires row.contato.Some?
    ensures r.contatoId == row.contato.value.id
    ensures r.casoId.Some? <==> row.caso.Some?
    ensures row.caso.None? ==> r.casoNome == Some("No linked case") && r.casoCidade == Some("") && r.casoDataObito == ""
    ensures |r.casoDataObito| <= 10
    ensures r.casoDataObito != "" ==> row.caso.Some? && row.caso.value.dataObito.Some? && r.casoDataObito <= row.caso.value.dataObito.value
    ensures row.caso.Some? && row.caso.value.dataObito.Some? ==> r.casoDataObito == Prefix(row.caso.value.dataObito.value, 10)
    ensures r.phoneDisplay == PhoneDisplay(Phones(row.contato.value)) && r.allPhones == AllPhones(Phones(row.contato.value))
  {
    var c := row.contato.value;
    var caso := row.caso;
    Card(
      c.id,
      c.nome,
      PhoneDisplay(Phones(c)),
      AllPhones(Phones(c)),
      c.status,
      c.notes,
      if caso.Some? then Some(caso.value.id) else None,
      if caso.Some? then caso.value.nome else Some("No linked case"),
      if caso.Some? then caso.value.cidade else Some(""),
      if caso.Some? && caso.value.dataObito.Some? && caso.value.dataObito.value != ""
      then Prefix(caso.value.dataObito.value, 10) else "",
      row.tipoParentesco)
  }

  /** The contact ids already on `cards`: the `seen_contacts` set. */
  function CardIds(cards: seq<Card>): set<string> {
    set c | c in cards :: c.contatoId
  }

  /** Adding a card adds its contact id to the seen set. */
  lemma CardIdsAppend(cards: seq<Card>, c: Card)
    ensures CardIds(cards + [c]) == CardIds(cards) + {c.contatoId}
  {
    assert forall d :: d in cards + [c] <==> d in cards || d == c;
  }

  /** Whether some row of `rows` carries the contact `id`. */
  predicate HasContact(rows: seq<StageRow>, id: string) {
    exists row :: row in rows && row.contato.Some? && row.contato.value.id == id
  }

  /** The flattening loop run over `rows`, in order. */
  function Cards(rows: seq<StageRow>): (r: seq<Card>)
    ensures |r| <= |rows|
    ensures forall i, j :: 0 <= i < j < |r| ==> r[i].contatoId != r[j].contatoId
    decreases |rows|
  {
    if rows == [] then []
    else
      var done := Cards(rows[..|rows| - 1]);
      var row := rows[|rows| - 1];
      if row.contato.Some? && row.contato.value.id !in CardIds(done) then done + [CardOf(row)]
      else done
  }

  /** A contact has a card exactly when some row carries it; rows without a contact add nothing. */
  lemma {:induction false} CardsCoverContacts(rows: seq<StageRow>)
    ensures forall id :: id in CardIds(Cards(rows)) <==> HasContact(rows, id)
    decreases |rows|
  {
    if rows != [] {
      var p := rows[..|rows| - 1];
      assert rows == p + [rows[|rows| - 1]];
      CardsCoverContacts(p);
      forall id ensures HasContact(rows, id) <==> HasContact(p, id) || (rows[|rows| - 1].contato.Some? && rows[|rows| - 1].contato.value.id == id) {
        assert forall row :: row in rows <==> row in p || row == rows[|rows| - 1];
      }
    }
  }

  /** The first row that carries a contact is the one its card is built from. */
  lemma {:induction false} CardFromFirstRow(rows: seq<StageRow>, k: nat)
    requires k < |rows| && rows[k].contato.Some?
    requires forall j :: 0 <= j < k ==> rows[j].contato.None? || rows[j].contato.value.id != rows[k].contato.value.id
    ensures CardOf(rows[k]) in Cards(rows)
    decreases |rows|
  {
    var p := rows[..|rows| - 1];
    var last := rows[|rows| - 1];
    assert Cards(rows) == if last.contato.Some? && last.contato.value.id !in CardIds(Cards(p)) then Cards(p) + [CardOf(last)] else Cards(p);
    if k < |rows| - 1 {
      assert p[k] == rows[k];
      CardFromFirstRow(p, k);
    } else {
      var id := last.contato.value.id;
      forall row | row in p ensures !(row.contato.Some? && row.contato.value.id == id) {
        var j :| 0 <= j < |p| && p[j] == row;
        assert rows[j] == row;
      }
      CardsCoverContacts(p);
    }
  }

  /**
   * `fetch_pipeline_cards` after the query: walks the returned rows, drops
   * rows without a contact and rows whose contact already has a card, and
   * builds one card per remaining row.
   */
  method FetchPipelineCards(rows: seq<StageRow>) returns (cards: seq<Card>)
    ensures cards == Cards(rows)
    ensures forall i, j :: 0 <= i < j < |cards| ==> cards[i].contatoId != cards[j].contatoId
  {
    cards := [];
    var seenContacts: set<string> := {};
    for i := 0 to |rows|
      invariant cards == Cards(rows[..i])
      invariant seenContacts == CardIds(cards)
    {
      assert rows[..i + 1][..i] == rows[..i];
      var row := rows[i];
      if row.contato.Some? && row.contato.value.id !in seenContacts {
        var card := CardOf(row);
        CardIdsAppend(cards, card);
        seenContacts := seenContacts + {row.contato.value.id};
        cards := cards + [card];
      }
    }
    assert rows[..|rows|] == rows;
  }
}
