/** `generateCodes`: draw the pairings for the organiser's list and save each
    one in the shared store under its code. */
module Sorteo {
  import opened Seqs
  import opened Oracle
  import opened Drawing
  import opened Storage
  import Roster

  /** The smallest list `generateCodes` accepts. */
  const MinParticipants: nat := 3

  /** What `generateCodes` ends with: refused for too few participants, gave up
      after `attempts` attempts (the last one stuck at `last`), or saved these
      assignments. */
  datatype GenerateOutcome =
    | TooFewParticipants
    | DrawingFailed(attempts: nat, last: seq<Assignment<string>>)
    | Saved(assignments: seq<Assignment<string>>)

  /** The record saved for one assignment within drawing `sorteoId`: its
      giver and receiver, tagged with the drawing. */
  function RecordOf(a: Assignment<string>, sorteoId: string): (r: Record)
    ensures r.giver == a.giver && r.receiver == a.receiver && r.sorteoId == sorteoId
  {
    Record(a.giver, a.receiver, sorteoId)
  }

  function CodesOf(assignments: seq<Assignment<string>>): (c: seq<string>)
    ensures |c| == |assignments|
    ensures forall i :: 0 <= i < |c| ==> c[i] == assignments[i].code
  {
    seq(|assignments|, i requires 0 <= i < |assignments| => assignments[i].code)
  }

  /** The store after `set(code, record)` for each assignment in turn. */
  function SaveAll(entries: map<string, Record>, assignments: seq<Assignment<string>>, sorteoId: string)
    : (saved: map<string, Record>)
    ensures saved.Keys == entries.Keys + set i | 0 <= i < |assignments| :: assignments[i].code
    ensures forall k :: k in entries && k !in CodesOf(assignments) ==> saved[k] == entries[k]
    decreases |assignments|
  {
    if assignments == [] then entries
    else
      var n := |assignments| - 1;
      var before := SaveAll(entries, assignments[..n], sorteoId);
      assert forall k :: k in CodesOf(assignments[..n]) ==> k in CodesOf(assignments);
      before[assignments[n].code := RecordOf(assignments[n], sorteoId)]
  }

  /** The store keeps, under a code, the record of the last assignment written
      with that code: a code drawn twice in one drawing (nothing prevents it)
      answers with the later giver's pairing only. */
  lemma {:induction false} LastWriteWins(entries: map<string, Record>, assignments: seq<Assignment<string>>,
                                         sorteoId: string, i: nat)
    requires i < |assignments|
    requires forall j :: i < j < |assignments| ==> assignments[j].code != assignments[i].code
    ensures assignments[i].code in SaveAll(entries, assignments, sorteoId)
    ensures SaveAll(entries, assignments, sorteoId)[assignments[i].code] == RecordOf(assignments[i], sorteoId)
    decreases |assignments|
  {
    var n := |assignments| - 1;
    if i < n {
      LastWriteWins(entries, assignments[..n], sorteoId, i);
    }
  }

  /** When the codes of a drawing are pairwise distinct, the store holds, under
      each code, exactly the pairing it was issued for. */
  lemma SavedUnderOwnCode(entries: map<string, Record>, assignments: seq<Assignment<string>>,
                          sorteoId: string, i: nat)
    requires NoDup(CodesOf(assignments)) && i < |assignments|
    ensures assignments[i].code in SaveAll(entries, assignments, sorteoId)
    ensures SaveAll(entries, assignments, sorteoId)[assignments[i].code] == RecordOf(assignments[i], sorteoId)
  {
    forall j | i < j < |assignments| ensures assignments[j].code != assignments[i].code {
      assert CodesOf(assignments)[i] != CodesOf(assignments)[j];
    }
    LastWriteWins(entries, assignments, sorteoId, i);
  }

  /** `generateCodes`: refuse fewer than three participants; otherwise draw
      (up to a hundred attempts); if no attempt was valid give up; otherwise
      save every assignment under its code within drawing `sorteoId`. */
  method GenerateCodes(organizer: Roster.Organizer, store: SharedStore, rand: nat -> real,
                       cursor: nat, sorteoId: string)
    returns (outcome: GenerateOutcome, next: nat)
    requires organizer.Valid() && IsUnitOracle(rand)
    modifies store
    ensures |organizer.participants| < MinParticipants <==> outcome == TooFewParticipants
    ensures !outcome.Saved? ==> store.entries == old(store.entries)
    ensures outcome.DrawingFailed? ==>
      outcome.attempts == MaxAttempts && IsDeadEnd(organizer.participants, outcome.last)
    ensures outcome.Saved? ==>
      IsDrawing(organizer.participants, outcome.assignments) &&
      WellFormedCodes(outcome.assignments) &&
      store.entries == SaveAll(old(store.entries), outcome.assignments, sorteoId)
    ensures cursor <= next
  {
    next := cursor;
    if |organizer.participants| < MinParticipants {
      return TooFewParticipants, next;
    }
    var valid, attempts, assignments;
    valid, attempts, assignments, next := Draw(organizer.participants, rand, cursor);
    if !valid {
      return DrawingFailed(attempts, assignments), next;
    }
    for k := 0 to |assignments|
      invariant store.entries == SaveAll(old(store.entries), assignments[..k], sorteoId)
    {
      assert assignments[..k + 1][..k] == assignments[..k];
      store.Set(assignments[k].code, RecordOf(assignments[k], sorteoId));
    }
    assert assignments[..|assignments|] == assignments;
    outcome := Saved(assignments);
  }
}
