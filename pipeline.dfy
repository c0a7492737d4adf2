/**
 * The kanban pipeline of the CRM (app.py): moving a relative between stages,
 * saving notes, and the One-Win, Close-All rule — when one relative of a
 * deceased is marked Won, every other still-open relative linked to the same
 * deceased is marked Lost.
 */
module Pipeline {
  import opened Wrappers
  import opened Crm
  import opened Lookup

  /** The board's columns, in display order. There is no Scheduled stage. */
  const PipelineStages: seq<string> := ["New", "Attempted", "In Progress", "Won", "Lost"]
  const Won: string := "Won"
  const Lost: string := "Lost"

  /** One reading of the clock, as `isoformat()` and as `strftime('%Y-%m-%d %H:%M')`. */
  datatype Now = Now(iso: string, minute: string)

  /** The text `move_to_stage` returns beside its success flag, by case. */
  datatype MoveMessage =
    | MarkedWon(closed: nat)  // "Marked as Won! <closed> other relative(s) automatically closed."
    | MovedTo(stage: string)  // "Moved to <stage>"
    | UpdateFailed            // "Failed to update status"

  /** A status the cascade never overwrites. A NULL status is open. */
  predicate IsClosed(status: Option<string>) {
    status == Some(Won) || status == Some(Lost)
  }

  // ---------------------------------------------------------------------------
  // Stage menu of the detail view
  // ---------------------------------------------------------------------------

  /** `stages` without the entry equal to `current`, order kept. */
  function Without(stages: seq<string>, current: Option<string>): (r: seq<string>)
    ensures forall s :: s in r <==> s in stages && current != Some(s)
    ensures current.None? || current.value !in stages ==> r == stages
    ensures current.Some? && current.value in stages && (forall i, j :: 0 <= i < j < |stages| ==> stages[i] != stages[j])
            ==> |r| == |stages| - 1
  {
    if stages == [] then []
    else if current == Some(stages[0]) then Without(stages[1..], current)
    else [stages[0]] + Without(stages[1..], current)
  }

  /** The targets the "Move to Stage" menu offers for a contact whose status is `current`. */
  function OtherStages(current: Option<string>): (r: seq<string>)
    ensures forall s :: s in r <==> s in PipelineStages && current != Some(s)
  {
    Without(PipelineStages, current)
  }

  /** No stage is listed twice: the five names start with five different letters. */
  lemma StagesDistinct()
    ensures forall i, j :: 0 <= i < j < |PipelineStages| ==> PipelineStages[i] != PipelineStages[j]
  {
    var initials := seq(|PipelineStages|, i requires 0 <= i < |PipelineStages| => PipelineStages[i][0]);
    assert initials == "NAIWL";
  }

  /** The menu offers the four other stages for a contact in a stage, and all five otherwise. */
  lemma OtherStagesCount(current: Option<string>)
    ensures |OtherStages(current)| == if current.Some? && current.value in PipelineStages then 4 else 5
  {
    StagesDistinct();
  }

  // ---------------------------------------------------------------------------
  // Single-row writes
  // ---------------------------------------------------------------------------

  /**
   * The contacts after `status` and the timestamp were written to row `id`.
   * An update filtered on an unknown id matches no row and changes nothing.
   */
  function WithStatus(cs: map<string, Contact>, id: string, status: string, now: Now): (r: map<string, Contact>)
    ensures r.Keys == cs.Keys
    ensures forall k :: k in cs && k != id ==> r[k] == cs[k]
    ensures id in cs ==> r[id] == cs[id].(status := Some(status), statusUpdatedAt := Some(now.iso))
  {
    if id in cs then cs[id := cs[id].(status := Some(status), statusUpdatedAt := Some(now.iso))] else cs
  }

  /** The contacts after `notes` was written to row `id`. */
  function WithNotes(cs: map<string, Contact>, id: string, notes: string): (r: map<string, Contact>)
    ensures r.Keys == cs.Keys
    ensures forall k :: k in cs && k != id ==> r[k] == cs[k]
    ensures id in cs ==> r[id] == cs[id].(notes := Some(notes))
  {
    if id in cs then cs[id := cs[id].(notes := Some(notes))] else cs
  }

  /**
   * `update_contact_status`: writes the status and the time of the change.
   * `writeFails` says whether the database call raises; the exception is
   * caught and reported as false.
   */
  method UpdateContactStatus(store: Store, id: string, status: string, now: Now, writeFails: bool) returns (ok: bool)
    modifies store
    ensures ok == !writeFails
    ensures store.relationships == old(store.relationships)
    ensures store.contacts == if writeFails then old(store.contacts) else WithStatus(old(store.contacts), id, status, now)
  {
    if writeFails {
      return false;
    }
    store.contacts := WithStatus(store.contacts, id, status, now);
    return true;
  }

  /** `update_contact_notes`: overwrites the notes; a raising call is reported as false. */
  method UpdateContactNotes(store: Store, id: string, notes: string, writeFails: bool) returns (ok: bool)
    modifies store
    ensures ok == !writeFails
    ensures store.relationships == old(store.relationships)
    ensures store.contacts == if writeFails then old(store.contacts) else WithNotes(old(store.contacts), id, notes)
  {
    if writeFails {
      return false;
    }
    store.contacts := WithNotes(store.contacts, id, notes);
    return true;
  }

  // ---------------------------------------------------------------------------
  // Relationship queries the cascade issues
  // ---------------------------------------------------------------------------

  /** The case of the first relationship row of `contato`, if it has one. */
  function CaseOf(rels: seq<Relationship>, contato: string): Option<string> {
    match FirstFrom(rels, (rel: Relationship) => rel.contatoId, contato, 0)
    case None => None
    case Some(k) => Some(rels[k].casoId)
  }

  /** Whether some relationship row links `contato` to case `caso`. */
  predicate InCase(rels: seq<Relationship>, caso: string, contato: string) {
    exists rel :: rel in rels && rel.casoId == caso && rel.contatoId == contato
  }

  /** The `contato_id` of every row of case `caso`, in row order, repeats kept. */
  function ContactIdsOfCase(rels: seq<Relationship>, caso: string): (r: seq<string>)
    ensures forall x :: x in r <==> InCase(rels, caso, x)
  {
    if rels == [] then []
    else
      assert forall rel :: rel in rels <==> rel == rels[0] || rel in rels[1..];
      if rels[0].casoId == caso then [rels[0].contatoId] + ContactIdsOfCase(rels[1..], caso)
      else ContactIdsOfCase(rels[1..], caso)
  }

  // ---------------------------------------------------------------------------
  // One-Win, Close-All
  // ---------------------------------------------------------------------------

  /** The audit line the cascade writes. */
  function AutoCloseLine(now: Now): string {
    "\n[Auto-closed: Another relative won on " + now.minute + "]"
  }

  /**
   * A sibling as the cascade rewrites it: Lost, stamped, and with notes built
   * from the row it read. That read selects only `status`, so the notes it
   * finds are always '' and the audit line replaces the sibling's notes.
   */
  function AutoClosed(c: Contact, now: Now): Contact {
    var readNotes := "";
    c.(status := Some(Lost), notes := Some(readNotes + AutoCloseLine(now)), statusUpdatedAt := Some(now.iso))
  }

  /** The contacts and the number of relatives closed, as the cascade leaves them. */
  datatype Closure = Closure(contacts: map<string, Contact>, closed: nat)

  /** The sibling loop run over the case rows `ids`, in order. */
  function CloseSiblings(cs: map<string, Contact>, ids: seq<string>, winner: string, now: Now): (r: Closure)
    ensures r.contacts.Keys == cs.Keys
    ensures r.closed <= |ids|
    decreases |ids|
  {
    if ids == [] then Closure(cs, 0)
    else
      var done := CloseSiblings(cs, ids[..|ids| - 1], winner, now);
      var id := ids[|ids| - 1];
      if id != winner && id in done.contacts && !IsClosed(done.contacts[id].status)
      then Closure(done.contacts[id := AutoClosed(done.contacts[id], now)], done.closed + 1)
      else done
  }

  /** The whole cascade for `winner`: nothing when it has no relationship row. */
  function CloseAll(cs: map<string, Contact>, rels: seq<Relationship>, winner: string, now: Now): (r: Closure)
    ensures r.contacts.Keys == cs.Keys
    ensures (forall k :: 0 <= k < |rels| ==> rels[k].contatoId != winner) ==> r == Closure(cs, 0)
  {
    match CaseOf(rels, winner)
    case None => Closure(cs, 0)
    case Some(caso) => CloseSiblings(cs, ContactIdsOfCase(rels, caso), winner, now)
  }

  /** Whether the sibling loop over `ids` closes `k`. */
  predicate ClosesIn(cs: map<string, Contact>, ids: seq<string>, winner: string, k: string) {
    k in cs && k != winner && k in ids && !IsClosed(cs[k].status)
  }

  /**
   * The rule itself: the cascade for `winner` closes `k` exactly when `k` is
   * linked to the winner's first case, is not the winner, and is still open.
   */
  predicate ClosedByCascade(cs: map<string, Contact>, rels: seq<Relationship>, winner: string, k: string) {
    && k in cs && k != winner && !IsClosed(cs[k].status)
    && CaseOf(rels, winner).Some? && InCase(rels, CaseOf(rels, winner).value, k)
  }

  /** One more case row closes its own contact, if open and not the winner, on top of what the earlier rows close. */
  lemma ClosesInAppend(cs: map<string, Contact>, p: seq<string>, id: string, winner: string)
    ensures forall k :: k in cs ==>
      (ClosesIn(cs, p + [id], winner, k) <==> ClosesIn(cs, p, winner, k) || (k == id && k != winner && !IsClosed(cs[k].status)))
  {
    forall k | k in cs ensures ClosesIn(cs, p + [id], winner, k) <==> ClosesIn(cs, p, winner, k) || (k == id && k != winner && !IsClosed(cs[k].status)) {
      assert k in p + [id] <==> k in p || k == id;
    }
  }

  /** Appending one id to the sibling list adds it to the closing set exactly when it is an open sibling not yet listed. */
  lemma ClosingSetStep(cs: map<string, Contact>, p: seq<string>, id: string, winner: string)
    ensures var before := set k | k in cs && ClosesIn(cs, p, winner, k);
            var after := set k | k in cs && ClosesIn(cs, p + [id], winner, k);
            if id in cs && id != winner && !IsClosed(cs[id].status) && id !in p
            then id !in before && after == before + {id}
            else after == before
  {
    ClosesInAppend(cs, p, id, winner);
    var before := set k | k in cs && ClosesIn(cs, p, winner, k);
    var after := set k | k in cs && ClosesIn(cs, p + [id], winner, k);
    if id in cs && id != winner && !IsClosed(cs[id].status) && id !in p {
      assert after == before + {id};
    } else {
      assert after == before;
    }
  }

  /** After the sibling loop each contact is auto-closed exactly when the rows `ids` close it. */
  lemma {:induction false} CloseSiblingsContacts(cs: map<string, Contact>, ids: seq<string>, winner: string, now: Now)
    ensures forall k :: k in cs ==>
      CloseSiblings(cs, ids, winner, now).contacts[k] == if ClosesIn(cs, ids, winner, k) then AutoClosed(cs[k], now) else cs[k]
    decreases |ids|
  {
    if ids != [] {
      var p := ids[..|ids| - 1];
      var id := ids[|ids| - 1];
      assert ids == p + [id];
      CloseSiblingsContacts(cs, p, winner, now);
      ClosesInAppend(cs, p, id, winner);
    }
  }

  /** The sibling loop counts the contacts the rows `ids` close. */
  lemma {:induction false} CloseSiblingsCount(cs: map<string, Contact>, ids: seq<string>, winner: string, now: Now)
    ensures CloseSiblings(cs, ids, winner, now).closed == |set k | k in cs && ClosesIn(cs, ids, winner, k)|
    decreases |ids|
  {
    if ids != [] {
      var p := ids[..|ids| - 1];
      var id := ids[|ids| - 1];
      assert ids == p + [id];
      CloseSiblingsCount(cs, p, winner, now);
      CloseSiblingsContacts(cs, p, winner, now);
      ClosesInAppend(cs, p, id, winner);
      ClosingSetStep(cs, p, id, winner);
      var done := CloseSiblings(cs, p, winner, now);
      if id in cs {
        assert done.contacts[id] == if ClosesIn(cs, p, winner, id) then AutoClosed(cs[id], now) else cs[id];
      }
    }
  }

  /** The sibling loop closes exactly the open contacts of `ids` other than the winner, and counts them. */
  lemma CloseSiblingsEffect(cs: map<string, Contact>, ids: seq<string>, winner: string, now: Now)
    ensures CloseSiblings(cs, ids, winner, now).contacts.Keys == cs.Keys
    ensures forall k :: k in cs ==>
      CloseSiblings(cs, ids, winner, now).contacts[k] == if ClosesIn(cs, ids, winner, k) then AutoClosed(cs[k], now) else cs[k]
    ensures CloseSiblings(cs, ids, winner, now).closed == |set k | k in cs && ClosesIn(cs, ids, winner, k)|
  {
    CloseSiblingsContacts(cs, ids, winner, now);
    CloseSiblingsCount(cs, ids, winner, now);
  }

  /** What the cascade does to every contact, and what its count means. */
  lemma CloseAllEffect(cs: map<string, Contact>, rels: seq<Relationship>, winner: string, now: Now)
    ensures CloseAll(cs, rels, winner, now).contacts.Keys == cs.Keys
    ensures forall k :: k in cs ==>
      CloseAll(cs, rels, winner, now).contacts[k] == if ClosedByCascade(cs, rels, winner, k) then AutoClosed(cs[k], now) else cs[k]
    ensures CloseAll(cs, rels, winner, now).closed == |set k | k in cs && ClosedByCascade(cs, rels, winner, k)|
  {
    match CaseOf(rels, winner)
    case None =>
      assert (set k | k in cs && ClosedByCascade(cs, rels, winner, k)) == {};
    case Some(caso) =>
      var ids := ContactIdsOfCase(rels, caso);
      CloseSiblingsEffect(cs, ids, winner, now);
      assert (set k | k in cs && ClosedByCascade(cs, rels, winner, k)) == (set k | k in cs && ClosesIn(cs, ids, winner, k));
  }

  /**
   * The winner, every contact outside the winner's first case, and every
   * contact already Won or Lost come out of the cascade exactly as they were.
   */
  lemma CascadeSparesOthers(cs: map<string, Contact>, rels: seq<Relationship>, winner: string, now: Now, k: string)
    requires k in cs
    requires k == winner || IsClosed(cs[k].status) || CaseOf(rels, winner).None? || !InCase(rels, CaseOf(rels, winner).value, k)
    ensures CloseAll(cs, rels, winner, now).contacts[k] == cs[k]
  {
    CloseAllEffect(cs, rels, winner, now);
  }

  /**
   * Every open sibling of the winner's first case ends Lost, stamped, with
   * the audit line as its whole notes: what the notes held before is gone.
   */
  lemma CascadeClosesOpenSiblings(cs: map<string, Contact>, rels: seq<Relationship>, winner: string, now: Now, k: string)
    requires k in cs && k != winner && !IsClosed(cs[k].status)
    requires CaseOf(rels, winner).Some? && InCase(rels, CaseOf(rels, winner).value, k)
    ensures var c := CloseAll(cs, rels, winner, now).contacts[k];
      && c.status == Some(Lost)
      && c.notes == Some(AutoCloseLine(now))
      && c.statusUpdatedAt == Some(now.iso)
      && c.(status := cs[k].status, notes := cs[k].notes, statusUpdatedAt := cs[k].statusUpdatedAt) == cs[k]
  {
    CloseAllEffect(cs, rels, winner, now);
    assert "" + AutoCloseLine(now) == AutoCloseLine(now);
  }

  /** The returned count is the number of contacts the cascade changed. */
  lemma CascadeCountsChanges(cs: map<string, Contact>, rels: seq<Relationship>, winner: string, now: Now)
    ensures var r := CloseAll(cs, rels, winner, now);
      r.closed == |set k | k in cs && r.contacts[k] != cs[k]|
  {
    var r := CloseAll(cs, rels, winner, now);
    CloseAllEffect(cs, rels, winner, now);
    assert (set k | k in cs && r.contacts[k] != cs[k]) == (set k | k in cs && ClosedByCascade(cs, rels, winner, k));
  }

  /** Re-running the cascade closes nothing and changes nothing. */
  lemma CascadeIdempotent(cs: map<string, Contact>, rels: seq<Relationship>, winner: string, now: Now, later: Now)
    ensures var r := CloseAll(cs, rels, winner, now);
      CloseAll(r.contacts, rels, winner, later) == Closure(r.contacts, 0)
  {
    var r := CloseAll(cs, rels, winner, now);
    CloseAllEffect(cs, rels, winner, now);
    CloseAllEffect(r.contacts, rels, winner, later);
    assert (set k | k in r.contacts && ClosedByCascade(r.contacts, rels, winner, k)) == {};
    var r2 := CloseAll(r.contacts, rels, winner, later);
    assert r2.contacts == r.contacts;
  }

  /**
   * `one_win_close_all`: finds the winner's case from its first relationship
   * row, then walks that case's rows, skipping the winner, and marks every
   * contact not already Won or Lost as Lost. Returns how many it closed.
   */
  method OneWinCloseAll(store: Store, winner: string, now: Now) returns (closed: nat)
    modifies store
    ensures store.relationships == old(store.relationships)
    ensures Closure(store.contacts, closed) == CloseAll(old(store.contacts), old(store.relationships), winner, now)
  {
    var caso := CaseOf(store.relationships, winner);
    if caso.None? {
      return 0;
    }
    var ids := ContactIdsOfCase(store.relationships, caso.value);
    ghost var cs0 := store.contacts;
    closed := 0;
    for i := 0 to |ids|
      invariant store.relationships == old(store.relationships)
      invariant Closure(store.contacts, closed) == CloseSiblings(cs0, ids[..i], winner, now)
    {
      assert ids[..i + 1][..i] == ids[..i];
      var other := ids[i];
      if other == winner {
        continue;
      }
      // The status read of the sibling; a missing row yields no data.
      if other in store.contacts && !IsClosed(store.contacts[other].status) {
        store.contacts := store.contacts[other := AutoClosed(store.contacts[other], now)];
        closed := closed + 1;
      }
    }
    assert ids[..|ids|] == ids;
  }

  // ---------------------------------------------------------------------------
  // Stage moves
  // ---------------------------------------------------------------------------

  /** The outcome of a stage move: success flag, message, contacts afterwards. */
  datatype Moved = Moved(success: bool, message: MoveMessage, contacts: map<string, Contact>)

  /** `move_to_stage` on values: the primary write, then the cascade only for a successful Won. */
  function MoveToStageSpec(cs: map<string, Contact>, rels: seq<Relationship>, id: string, newStatus: string, now: Now, writeFails: bool): Moved {
    if writeFails then Moved(false, UpdateFailed, cs)
    else if newStatus == Won then
      var r := CloseAll(WithStatus(cs, id, Won, now), rels, id, now);
      Moved(true, MarkedWon(r.closed), r.contacts)
    else Moved(true, MovedTo(newStatus), WithStatus(cs, id, newStatus, now))
  }

  /**
   * A move succeeds exactly when the primary write does; a failed move
   * changes nothing; a successful move leaves the contact in the new stage;
   * only a successful move to Won touches any other contact, and then
   * exactly the ones the cascade closes.
   */
  lemma MoveToStageEffect(cs: map<string, Contact>, rels: seq<Relationship>, id: string, newStatus: string, now: Now, writeFails: bool)
    ensures var m := MoveToStageSpec(cs, rels, id, newStatus, now, writeFails);
      && m.success == !writeFails
      && m.contacts.Keys == cs.Keys
      && (writeFails ==> m.contacts == cs && m.message == UpdateFailed)
      && (!writeFails && newStatus != Won ==> m.message == MovedTo(newStatus))
      && (!writeFails && newStatus == Won ==> m.message == MarkedWon(|set k | k in cs && ClosedByCascade(cs, rels, id, k)|))
      && (!writeFails && id in cs ==> m.contacts[id] == cs[id].(status := Some(newStatus), statusUpdatedAt := Some(now.iso)))
      && (newStatus != Won ==> forall k :: k in cs && k != id ==> m.contacts[k] == cs[k])
      && (!writeFails && newStatus == Won ==>
            forall k :: k in cs && k != id ==>
              m.contacts[k] == if ClosedByCascade(cs, rels, id, k) then AutoClosed(cs[k], now) else cs[k])
  {
    if !writeFails && newStatus == Won {
      var cs1 := WithStatus(cs, id, Won, now);
      CloseAllEffect(cs1, rels, id, now);
      forall k | k in cs && k != id
        ensures ClosedByCascade(cs1, rels, id, k) == ClosedByCascade(cs, rels, id, k)
      {
      }
      assert (set k | k in cs1 && ClosedByCascade(cs1, rels, id, k)) == (set k | k in cs && ClosedByCascade(cs, rels, id, k));
    }
  }

  /**
   * `move_to_stage`: writes the new status; when the target is Won and that
   * write succeeded, runs the cascade and reports how many it closed.
   */
  method MoveToStage(store: Store, id: string, newStatus: string, now: Now, writeFails: bool)
    returns (success: bool, message: MoveMessage)
    modifies store
    ensures store.relationships == old(store.relationships)
    ensures MoveToStageSpec(old(store.contacts), old(store.relationships), id, newStatus, now, writeFails)
            == Moved(success, message, store.contacts)
  {
    if newStatus == Won {
      success := UpdateContactStatus(store, id, Won, now, writeFails);
      if success {
        var closed := OneWinCloseAll(store, id, now);
        return true, MarkedWon(closed);
      }
      return false, UpdateFailed;
    } else {
      success := UpdateContactStatus(store, id, newStatus, now, writeFails);
      if success {
        return true, MovedTo(newStatus);
      }
      return false, UpdateFailed;
    }
  }
}
