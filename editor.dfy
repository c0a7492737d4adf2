/**
 * The relatives editor of the first CRM (app_legacy.py): the relatives of
 * one deceased are flattened from the joined rows, shown in an editable
 * grid with their phones aggregated, and the grid is compared with its
 * original to write back the `contacted` flag and the notes of every
 * changed row.
 */
module Editor {
  import opened Wrappers
  import opened Text
  import opened Crm
  import opened Lookup
  import PipelineCards

  /** The embedded `contatos` record of a joined relationship row. */
  datatype RelativeContact = RelativeContact(
    id: string,
    nome: Option<string>,
    telefone1: Option<string>,
    telefone2: Option<string>,
    telefone3: Option<string>,
    telefone4: Option<string>,
    contacted: Option<bool>,
    notes: Option<string>)

  /** One joined `relacionamentos` row of a case; a missing or empty contact is None. */
  datatype RelativeRow = RelativeRow(id: string, tipoParentesco: Option<string>, contatoId: string, contato: Option<RelativeContact>)

  /** One flattened relative. */
  datatype Relative = Relative(
    relId: string,
    contatoId: string,
    nome: Option<string>,
    tipoParentesco: Option<string>,
    telefone1: Option<string>,
    telefone2: Option<string>,
    telefone3: Option<string>,
    telefone4: Option<string>,
    contacted: bool,
    notes: string)

  /** One row of the editor grid; a notes cell the user cleared holds None. */
  datatype EditorRow = EditorRow(
    contatoId: string,
    nome: Option<string>,
    tipoParentesco: Option<string>,
    telefones: string,
    contacted: bool,
    notes: Option<string>)

  // ---------------------------------------------------------------------------
  // Flattening the relatives of a case
  // ---------------------------------------------------------------------------

  /** A row with a contact, flattened: a NULL `contacted` reads as false and NULL notes as ''. */
  function ToRelative(row: RelativeRow): Relative
    requires row.contato.Some?
  {
    var c := row.contato.value;
    Relative(
      row.id, c.id, c.nome, row.tipoParentesco,
      c.telefone1, c.telefone2, c.telefone3, c.telefone4,
      c.contacted == Some(true),
      if c.notes.Some? then c.notes.value else "")
  }

  /** The flattening loop run over `rows`, in order. */
  function RelativesOf(rows: seq<RelativeRow>): (r: seq<Relative>)
    ensures |r| <= |rows|
    decreases |rows|
  {
    if rows == [] then []
    else
      var done := RelativesOf(rows[..|rows| - 1]);
      var row := rows[|rows| - 1];
      if row.contato.Some? then done + [ToRelative(row)] else done
  }

  /**
   * The flattened relatives are exactly the rows that carry a contact: a row
   * whose contact is missing or empty contributes nothing.
   */
  lemma {:induction false} RelativesOfRows(rows: seq<RelativeRow>)
    ensures forall x :: x in RelativesOf(rows) <==> exists row :: row in rows && row.contato.Some? && x == ToRelative(row)
    ensures |RelativesOf(rows)| == |rows| <==> forall k :: 0 <= k < |rows| ==> rows[k].contato.Some?
    decreases |rows|
  {
    if rows != [] {
      var p := rows[..|rows| - 1];
      var last := rows[|rows| - 1];
      assert rows == p + [last];
      RelativesOfRows(p);
      assert forall row :: row in rows <==> row in p || row == last;
      assert forall k :: 0 <= k < |p| ==> rows[k] == p[k];
    }
  }

  /** The defaults of the flattening: NULL `contacted` is false, NULL notes are ''. */
  lemma RelativeDefaults(row: RelativeRow)
    requires row.contato.Some?
    ensures ToRelative(row).contatoId == row.contato.value.id
    ensures ToRelative(row).contacted <==> row.contato.value.contacted == Some(true)
    ensures row.contato.value.notes.None? ==> ToRelative(row).notes == ""
    ensures row.contato.value.notes.Some? ==> ToRelative(row).notes == row.contato.value.notes.value
  {
  }

  /**
   * `fetch_relatives_for_caso` after the query: keeps the rows whose contact
   * is present and flattens each, in order.
   */
  method FetchRelativesForCaso(rows: seq<RelativeRow>) returns (relatives: seq<Relative>)
    ensures relatives == RelativesOf(rows)
  {
    relatives := [];
    for i := 0 to |rows|
      invariant relatives == RelativesOf(rows[..i])
    {
      assert rows[..i + 1][..i] == rows[..i];
      var row := rows[i];
      if row.contato.Some? {
        relatives := relatives + [ToRelative(row)];
      }
    }
    assert rows[..|rows|] == rows;
  }

  // ---------------------------------------------------------------------------
  // Phones and the editor grid
  // ---------------------------------------------------------------------------

  /** `aggregate_phone_numbers`: the filled phones, stripped, in field order, joined with ", ". */
  function AggregatePhoneNumbers(telefone1: Option<string>, telefone2: Option<string>, telefone3: Option<string>, telefone4: Option<string>): string {
    Join(", ", StrippedValues([telefone1, telefone2, telefone3, telefone4]))
  }

  /** The stripped filled phones are non-empty and have no whitespace at either end. */
  lemma StrippedPhonesTrimmed(ps: seq<Option<string>>)
    ensures forall k :: 0 <= k < |StrippedValues(ps)| ==>
      var p := StrippedValues(ps)[k];
      p != "" && !IsSpace(p[0]) && !IsSpace(p[|p| - 1])
  {
    var parts := StrippedValues(ps);
    StrippedValuesPointwise(ps);
    forall k | 0 <= k < |parts| ensures parts[k] != "" && !IsSpace(parts[k][0]) && !IsSpace(parts[k][|parts[k]| - 1]) {
      var f := FilledValues(ps)[k];
      assert f in FilledValues(ps);
      StripEdges(f);
    }
  }

  /** Joining the stripped filled values gives '' exactly when no value is filled. */
  lemma StrippedJoinEmptyIff(ps: seq<Option<string>>)
    ensures Join(", ", StrippedValues(ps)) == "" <==> forall k :: 0 <= k < |ps| ==> !IsFilled(ps[k])
  {
    StrippedPhonesTrimmed(ps);
    StrippedValuesPointwise(ps);
    JoinEmptyIff(", ", StrippedValues(ps));
    FilledValuesEmptyIff(ps);
  }

  /** The four phone columns as a chain of single-element concatenations. */
  lemma FourPhonesUnrolled(t1: Option<string>, t2: Option<string>, t3: Option<string>, t4: Option<string>)
    ensures [t1, t2, t3, t4] == [t1] + ([t2] + ([t3] + ([t4] + [])))
  {
  }

  /** No phone survives the filter exactly when none of the four is filled. */
  lemma NoPhoneKeptIffNoneFilled(t1: Option<string>, t2: Option<string>, t3: Option<string>, t4: Option<string>)
    ensures StrippedValues([t1, t2, t3, t4]) == [] <==> !IsFilled(t1) && !IsFilled(t2) && !IsFilled(t3) && !IsFilled(t4)
  {
    FourPhonesUnrolled(t1, t2, t3, t4);
    StrippedValuesPointwise([t1, t2, t3, t4]);
    FilledValuesEmptyCons(t1, [t2] + ([t3] + ([t4] + [])));
    FilledValuesEmptyCons(t2, [t3] + ([t4] + []));
    FilledValuesEmptyCons(t3, [t4] + []);
    FilledValuesEmptyCons(t4, []);
  }

  /** The aggregate is empty exactly when none of the four phones is filled. */
  lemma AggregateEmptyIffNoPhone(t1: Option<string>, t2: Option<string>, t3: Option<string>, t4: Option<string>)
    ensures AggregatePhoneNumbers(t1, t2, t3, t4) == "" <==> !IsFilled(t1) && !IsFilled(t2) && !IsFilled(t3) && !IsFilled(t4)
  {
    var ps := [t1, t2, t3, t4];
    StrippedPhonesTrimmed(ps);
    JoinEmptyIff(", ", StrippedValues(ps));
    NoPhoneKeptIffNoneFilled(t1, t2, t3, t4);
  }

  /** The aggregate carries no leading or trailing whitespace, and its first entry is the first filled phone, stripped. */
  lemma AggregateIsStripped(t1: Option<string>, t2: Option<string>, t3: Option<string>, t4: Option<string>)
    ensures Strip(AggregatePhoneNumbers(t1, t2, t3, t4)) == AggregatePhoneNumbers(t1, t2, t3, t4)
    ensures IsFilled(t1) ==> Strip(t1.value) <= AggregatePhoneNumbers(t1, t2, t3, t4)
  {
    var ps := [t1, t2, t3, t4];
    StrippedPhonesTrimmed(ps);
    JoinOfStripped(", ", StrippedValues(ps));
  }

  /** The aggregate lists the filled phones in field order: telefone1 first, telefone4 last. */
  lemma AggregateFieldOrder(t1: Option<string>, t2: Option<string>, t3: Option<string>, t4: Option<string>)
    ensures AggregatePhoneNumbers(t1, t2, t3, t4) ==
      Join(", ", StrippedIfFilled(t1) + (StrippedIfFilled(t2) + (StrippedIfFilled(t3) + StrippedIfFilled(t4))))
  {
    FourPhonesUnrolled(t1, t2, t3, t4);
    StrippedValuesFour(t1, t2, t3, t4);
  }

  /** Every filled value, stripped, occurs in the joined list of stripped filled values. */
  lemma JoinedStrippedHasFilled(ps: seq<Option<string>>, i: nat)
    requires i < |ps| && IsFilled(ps[i])
    ensures Contains(Join(", ", StrippedValues(ps)), Strip(ps[i].value))
  {
    var parts := StrippedValues(ps);
    StrippedValuesMembers(ps);
    var k :| 0 <= k < |parts| && parts[k] == Strip(ps[i].value);
    JoinHasPart(", ", parts, k);
  }

  /** No filled phone is lost: phone column `i` (0 for telefone1), when filled, occurs stripped in the aggregate. */
  lemma AggregateHasEveryPhone(t1: Option<string>, t2: Option<string>, t3: Option<string>, t4: Option<string>, i: nat)
    requires i < 4 && IsFilled([t1, t2, t3, t4][i])
    ensures Contains(AggregatePhoneNumbers(t1, t2, t3, t4), Strip([t1, t2, t3, t4][i].value))
  {
    JoinedStrippedHasFilled([t1, t2, t3, t4], i);
  }

  /**
   * Where every stored phone is already stripped, the editor's aggregate and
   * the kanban card's phone list agree.
   */
  lemma AggregateMatchesCardPhones(t1: Option<string>, t2: Option<string>, t3: Option<string>, t4: Option<string>)
    requires forall p :: p in [t1, t2, t3, t4] && p.Some? ==> Strip(p.value) == p.value
    ensures AggregatePhoneNumbers(t1, t2, t3, t4) == PipelineCards.AllPhones([t1, t2, t3, t4])
  {
    var ps := [t1, t2, t3, t4];
    forall k | 0 <= k < |ps| && ps[k].Some? ensures Strip(ps[k].value) == ps[k].value {
      assert ps[k] in ps;
    }
    StrippedValuesOfStripped(ps);
  }

  /** The grid row of one relative. */
  function EditorRowOf(rel: Relative): EditorRow {
    EditorRow(
      rel.contatoId, rel.nome, rel.tipoParentesco,
      AggregatePhoneNumbers(rel.telefone1, rel.telefone2, rel.telefone3, rel.telefone4),
      rel.contacted, Some(rel.notes))
  }

  /**
   * The grid of a list of relatives: one row each, in order, keeping the
   * contact id, name, relationship, flag and notes of its relative.
   */
  function FrameOf(relatives: seq<Relative>): (r: seq<EditorRow>)
    ensures |r| == |relatives|
    ensures forall i :: 0 <= i < |r| ==>
      && r[i].contatoId == relatives[i].contatoId
      && r[i].nome == relatives[i].nome
      && r[i].tipoParentesco == relatives[i].tipoParentesco
      && r[i].contacted == relatives[i].contacted
      && r[i].notes == Some(relatives[i].notes)
  {
    seq(|relatives|, i requires 0 <= i < |relatives| => EditorRowOf(relatives[i]))
  }

  /** A grid row shows an empty phone cell exactly when its relative has no filled phone. */
  lemma FramePhonesEmptyIff(relatives: seq<Relative>, i: nat)
    requires i < |relatives|
    ensures var rel := relatives[i];
      FrameOf(relatives)[i].telefones == "" <==>
      !IsFilled(rel.telefone1) && !IsFilled(rel.telefone2) && !IsFilled(rel.telefone3) && !IsFilled(rel.telefone4)
  {
    var rel := relatives[i];
    AggregateEmptyIffNoPhone(rel.telefone1, rel.telefone2, rel.telefone3, rel.telefone4);
  }

  /** `prepare_relatives_dataframe`: the grid of the relatives; no relatives give an empty grid. */
  method PrepareRelativesDataframe(relatives: seq<Relative>) returns (frame: seq<EditorRow>)
    ensures frame == FrameOf(relatives)
    ensures relatives == [] ==> frame == []
  {
    if relatives == [] {
      return [];
    }
    var processed: seq<EditorRow> := [];
    for i := 0 to |relatives|
      invariant |processed| == i
      invariant forall k :: 0 <= k < i ==> processed[k] == EditorRowOf(relatives[k])
    {
      processed := processed + [EditorRowOf(relatives[i])];
    }
    assert forall k :: 0 <= k < |relatives| ==> processed[k] == FrameOf(relatives)[k];
    return processed;
  }

  // ---------------------------------------------------------------------------
  // Change detection and write-back
  // ---------------------------------------------------------------------------

  /** The first original row with the same id: `original_df[original_df['contato_id'] == id].iloc[0]`. */
  function FirstById(frame: seq<EditorRow>, contato: string): Option<EditorRow> {
    match FirstFrom(frame, (row: EditorRow) => row.contatoId, contato, 0)
    case None => None
    case Some(k) => Some(frame[k])
  }

  /** The notes a write stores: `str(notes) if notes else ''`. */
  function WrittenNotes(notes: Option<string>): (r: string)
    ensures notes.Some? ==> r == notes.value
    ensures notes.None? ==> r == ""
  {
    if notes.Some? && notes.value != "" then notes.value else ""
  }

  /** Whether the diff writes `row` back: it matches an original row and its flag or notes differ. */
  predicate NeedsWrite(row: EditorRow, original: seq<EditorRow>) {
    match FirstById(original, row.contatoId)
    case None => false
    case Some(o) => row.contacted != o.contacted || row.notes != o.notes
  }

  /**
   * A row needs a write exactly when the original grid has a row of its
   * contact and the first such row differs from it in flag or notes.
   */
  lemma NeedsWriteIff(row: EditorRow, original: seq<EditorRow>)
    ensures NeedsWrite(row, original) <==>
      exists i :: 0 <= i < |original| && original[i].contatoId == row.contatoId
        && (forall j :: 0 <= j < i ==> original[j].contatoId != row.contatoId)
        && (row.contacted != original[i].contacted || row.notes != original[i].notes)
  {
    var found := FirstFrom(original, (r: EditorRow) => r.contatoId, row.contatoId, 0);
    if NeedsWrite(row, original) {
      var i := found.value;
      assert original[i].contatoId == row.contatoId;
    }
    if exists i :: 0 <= i < |original| && original[i].contatoId == row.contatoId
        && (forall j :: 0 <= j < i ==> original[j].contatoId != row.contatoId)
        && (row.contacted != original[i].contacted || row.notes != original[i].notes) {
      var i :| 0 <= i < |original| && original[i].contatoId == row.contatoId
        && (forall j :: 0 <= j < i ==> original[j].contatoId != row.contatoId)
        && (row.contacted != original[i].contacted || row.notes != original[i].notes);
      assert found.Some?;
      assert found.value == i;
    }
  }

  /** Whether `row` is written back and the write succeeds. */
  predicate Saves(row: EditorRow, original: seq<EditorRow>, failing: set<string>) {
    NeedsWrite(row, original) && row.contatoId !in failing
  }

  /** The contacts after the CRM fields of row `id` were written; an unknown id matches no row. */
  function WithCrmFields(cs: map<string, Contact>, id: string, contacted: bool, notes: string): (r: map<string, Contact>)
    ensures r.Keys == cs.Keys
    ensures forall k :: k in cs && k != id ==> r[k] == cs[k]
    ensures id in cs ==> r[id] == cs[id].(contacted := Some(contacted), notes := Some(notes))
  {
    if id in cs then cs[id := cs[id].(contacted := Some(contacted), notes := Some(notes))] else cs
  }

  /**
   * `update_contato_crm_fields`: writes the flag and the notes of one
   * contact; `writeFails` says whether the call raises, which is reported
   * as false.
   */
  method UpdateContatoCrmFields(store: Store, id: string, contacted: bool, notes: string, writeFails: bool) returns (ok: bool)
    modifies store
    ensures ok == !writeFails
    ensures store.relationships == old(store.relationships)
    ensures store.contacts == if writeFails then old(store.contacts) else WithCrmFields(old(store.contacts), id, contacted, notes)
  {
    if writeFails {
      return false;
    }
    store.contacts := WithCrmFields(store.contacts, id, contacted, notes);
    return true;
  }

  /** The contacts and the number of successful writes the diff leaves. */
  datatype Saved = Saved(contacts: map<string, Contact>, changesMade: nat)

  /** The diff loop run over the edited rows, in order. */
  function SaveRows(cs: map<string, Contact>, edited: seq<EditorRow>, original: seq<EditorRow>, failing: set<string>): (r: Saved)
    ensures r.contacts.Keys == cs.Keys
    ensures r.changesMade <= |edited|
    decreases |edited|
  {
    if edited == [] then Saved(cs, 0)
    else
      var done := SaveRows(cs, edited[..|edited| - 1], original, failing);
      var row := edited[|edited| - 1];
      if Saves(row, original, failing)
      then Saved(WithCrmFields(done.contacts, row.contatoId, row.contacted, WrittenNotes(row.notes)), done.changesMade + 1)
      else done
  }

  /** `detect_and_save_changes` on values: nothing when either grid is missing or empty. */
  function DetectAndSave(cs: map<string, Contact>, edited: Option<seq<EditorRow>>, original: Option<seq<EditorRow>>, failing: set<string>): (r: Saved)
    ensures r.contacts.Keys == cs.Keys
    ensures edited.None? || original.None? || edited == Some([]) || original == Some([]) ==> r == Saved(cs, 0)
  {
    if edited.None? || original.None? then Saved(cs, 0)
    else if edited.value == [] || original.value == [] then Saved(cs, 0)
    else SaveRows(cs, edited.value, original.value, failing)
  }

  /** The last edited row of contact `k` that is written back successfully. */
  function LastSave(edited: seq<EditorRow>, original: seq<EditorRow>, failing: set<string>, k: string): (r: Option<EditorRow>)
    ensures r.Some? ==> r.value in edited && r.value.contatoId == k && Saves(r.value, original, failing)
    ensures r.None? ==> forall e :: e in edited && e.contatoId == k ==> !Saves(e, original, failing)
    ensures r.Some? ==>
      exists i :: 0 <= i < |edited| && edited[i] == r.value
        && (forall j :: i < j < |edited| ==> !(edited[j].contatoId == k && Saves(edited[j], original, failing)))
    decreases |edited|
  {
    if edited == [] then None
    else
      var row := edited[|edited| - 1];
      if row.contatoId == k && Saves(row, original, failing) then Some(row)
      else LastSave(edited[..|edited| - 1], original, failing, k)
  }

  /**
   * What the diff does to contact `k`: it keeps its row unless an edited row
   * of it was written back successfully, and then carries the flag and the
   * notes of the last such row.
   */
  lemma {:induction false} SaveRowsContact(cs: map<string, Contact>, edited: seq<EditorRow>, original: seq<EditorRow>, failing: set<string>, k: string)
    requires k in cs
    ensures SaveRows(cs, edited, original, failing).contacts[k] ==
      match LastSave(edited, original, failing, k)
      case None => cs[k]
      case Some(e) => cs[k].(contacted := Some(e.contacted), notes := Some(WrittenNotes(e.notes)))
    decreases |edited|
  {
    if edited != [] {
      SaveRowsContact(cs, edited[..|edited| - 1], original, failing, k);
    }
  }

  /** The number of true flags among the first `n` grows by one exactly when flag `n` is true. */
  lemma CountFlagsStep(flags: seq<bool>, n: nat)
    requires n < |flags|
    ensures |set i | 0 <= i < n + 1 && flags[i]| == |set i | 0 <= i < n && flags[i]| + if flags[n] then 1 else 0
  {
    var before := set i | 0 <= i < n && flags[i];
    var after := set i | 0 <= i < n + 1 && flags[i];
    if flags[n] {
      assert after == before + {n};
    } else {
      assert after == before;
    }
  }

  /** Which edited rows are written back successfully, row by row. */
  function SaveFlags(edited: seq<EditorRow>, original: seq<EditorRow>, failing: set<string>): (r: seq<bool>)
    ensures |r| == |edited|
    ensures forall i :: 0 <= i < |edited| ==> (r[i] <==> Saves(edited[i], original, failing))
  {
    seq(|edited|, i requires 0 <= i < |edited| => Saves(edited[i], original, failing))
  }

  /** The number the diff reports is the number of edited rows written back successfully. */
  lemma {:induction false} SaveRowsCount(cs: map<string, Contact>, edited: seq<EditorRow>, original: seq<EditorRow>, failing: set<string>)
    ensures var flags := SaveFlags(edited, original, failing);
      SaveRows(cs, edited, original, failing).changesMade == |set i | 0 <= i < |edited| && flags[i]|
    decreases |edited|
  {
    if edited != [] {
      var n := |edited| - 1;
      var p := edited[..n];
      SaveRowsCount(cs, p, original, failing);
      var flags := SaveFlags(edited, original, failing);
      var prior := SaveFlags(p, original, failing);
      assert SaveRows(cs, edited, original, failing).changesMade
        == SaveRows(cs, p, original, failing).changesMade + if flags[n] then 1 else 0;
      forall i | 0 <= i < n ensures prior[i] == flags[i] {
        assert p[i] == edited[i];
      }
      CountFlagsStep(flags, n);
      assert (set i | 0 <= i < n && prior[i]) == (set i | 0 <= i < n && flags[i]);
    }
  }

  /** When no edited row is written back successfully, the diff changes nothing and reports zero. */
  lemma {:induction false} SaveRowsNoSave(cs: map<string, Contact>, edited: seq<EditorRow>, original: seq<EditorRow>, failing: set<string>)
    requires forall i :: 0 <= i < |edited| ==> !Saves(edited[i], original, failing)
    ensures SaveRows(cs, edited, original, failing) == Saved(cs, 0)
    decreases |edited|
  {
    if edited != [] {
      SaveRowsNoSave(cs, edited[..|edited| - 1], original, failing);
    }
  }

  /** Comparing a grid with itself writes nothing when rows of one contact agree on its flag and notes. */
  lemma UnchangedFrameWritesNothing(cs: map<string, Contact>, frame: seq<EditorRow>, failing: set<string>)
    requires forall i, j :: 0 <= i < |frame| && 0 <= j < |frame| && frame[i].contatoId == frame[j].contatoId
               ==> frame[i].contacted == frame[j].contacted && frame[i].notes == frame[j].notes
    ensures DetectAndSave(cs, Some(frame), Some(frame), failing) == Saved(cs, 0)
  {
    forall i | 0 <= i < |frame| ensures !NeedsWrite(frame[i], frame) {
      var k := FirstFrom(frame, (row: EditorRow) => row.contatoId, frame[i].contatoId, 0);
      assert k.Some?;
    }
    SaveRowsNoSave(cs, frame, frame, failing);
  }

  /** Every row of one contact embeds the same record of it, as a join on the contact's id does. */
  predicate OneRecordPerContact(rows: seq<RelativeRow>) {
    forall a, b :: 0 <= a < |rows| && 0 <= b < |rows| && rows[a].contato.Some? && rows[b].contato.Some? ==>
      (rows[a].contato.value.id == rows[b].contato.value.id ==> rows[a].contato.value == rows[b].contato.value)
  }

  /** Two flattened relatives of the same contact agree on its flag and notes, when each contact has one record. */
  lemma SameContactSameFields(rows: seq<RelativeRow>, x: Relative, y: Relative)
    requires OneRecordPerContact(rows)
    requires x in RelativesOf(rows) && y in RelativesOf(rows) && x.contatoId == y.contatoId
    ensures x.contacted == y.contacted && x.notes == y.notes
  {
    RelativesOfRows(rows);
    var rx :| rx in rows && rx.contato.Some? && x == ToRelative(rx);
    var ry :| ry in rows && ry.contato.Some? && y == ToRelative(ry);
    var a :| 0 <= a < |rows| && rows[a] == rx;
    var b :| 0 <= b < |rows| && rows[b] == ry;
    assert rx.contato.value == ry.contato.value;
  }

  /**
   * The grid prepared from freshly fetched relatives, compared with itself,
   * writes nothing: rows of one contact carry that contact's one record.
   */
  lemma FreshGridWritesNothing(cs: map<string, Contact>, rows: seq<RelativeRow>, failing: set<string>)
    requires OneRecordPerContact(rows)
    ensures DetectAndSave(cs, Some(FrameOf(RelativesOf(rows))), Some(FrameOf(RelativesOf(rows))), failing) == Saved(cs, 0)
  {
    var rels := RelativesOf(rows);
    var frame := FrameOf(rels);
    forall i, j | 0 <= i < |frame| && 0 <= j < |frame| && frame[i].contatoId == frame[j].contatoId
      ensures frame[i].contacted == frame[j].contacted && frame[i].notes == frame[j].notes
    {
      SameContactSameFields(rows, rels[i], rels[j]);
    }
    UnchangedFrameWritesNothing(cs, frame, failing);
  }

  /**
   * `detect_and_save_changes`: returns at once when either grid is missing
   * or empty; otherwise, for each edited row, finds the first original row
   * with its id, skips it when there is none, and writes the flag and notes
   * back when either differs. Returns the number of successful writes.
   */
  method DetectAndSaveChanges(store: Store, edited: Option<seq<EditorRow>>, original: Option<seq<EditorRow>>, failing: set<string>)
    returns (changesMade: nat)
    modifies store
    ensures store.relationships == old(store.relationships)
    ensures Saved(store.contacts, changesMade) == DetectAndSave(old(store.contacts), edited, original, failing)
  {
    if edited.None? || original.None? {
      return 0;
    }
    if edited.value == [] || original.value == [] {
      return 0;
    }
    var rows := edited.value;
    ghost var cs0 := store.contacts;
    changesMade := 0;
    for i := 0 to |rows|
      invariant store.relationships == old(store.relationships)
      invariant Saved(store.contacts, changesMade) == SaveRows(cs0, rows[..i], original.value, failing)
    {
      assert rows[..i + 1][..i] == rows[..i];
      var row := rows[i];
      var originalRow := FirstById(original.value, row.contatoId);
      if originalRow.None? {
        continue;
      }
      var contactedChanged := row.contacted != originalRow.value.contacted;
      var notesChanged := row.notes != originalRow.value.notes;
      if contactedChanged || notesChanged {
        var success := UpdateContatoCrmFields(store, row.contatoId, row.contacted, WrittenNotes(row.notes), row.contatoId in failing);
        if success {
          changesMade := changesMade + 1;
        }
      }
    }
    assert rows[..|rows|] == rows;
  }
}
