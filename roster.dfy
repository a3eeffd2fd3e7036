/** The organiser's list of participants (the global `participants` array),
    with `addParticipant` and `removeParticipant`. */
module Roster {
  import opened Seqs
  import Text

  /** What `addParticipant` reports: the name it appended, or why it refused. */
  datatype AddOutcome = Added(name: string) | EmptyName | DuplicateName

  /** A list the organiser can build: every name non-empty and trimmed, and no
      name listed twice. */
  predicate IsRoster(names: seq<string>) {
    NoDup(names) && forall i :: 0 <= i < |names| ==> names[i] != [] && Text.IsTrimmed(names[i])
  }

  /** Appending a trimmed, non-empty name not yet listed keeps a roster a roster. */
  lemma AppendKeepsRoster(names: seq<string>, name: string)
    requires IsRoster(names) && name != [] && Text.IsTrimmed(name) && name !in names
    ensures IsRoster(names + [name])
  {
    var r := names + [name];
    forall i, j | 0 <= i < j < |r| ensures r[i] != r[j] {
      if j == |names| {
        assert r[i] in names;
      }
    }
  }

  /** Filtering a name out keeps a roster a roster. */
  lemma WithoutKeepsRoster(names: seq<string>, name: string)
    requires IsRoster(names)
    ensures IsRoster(Without(names, name))
  {
    WithoutKeepsNoDup(names, name);
    var r := Without(names, name);
    forall i | 0 <= i < |r| ensures r[i] != [] && Text.IsTrimmed(r[i]) {
      assert r[i] in multiset(r);
      assert r[i] in names;
    }
  }

  class Organizer {
    /** The participants, in the order they were added. */
    var participants: seq<string>

    ghost predicate Valid()
      reads this
    {
      IsRoster(participants)
    }

    /** `let participants = []`. */
    constructor ()
      ensures Valid() && participants == []
    {
      participants := [];
    }

    /** `addParticipant`: trim the typed name; refuse it if it is empty or
        already listed, leaving the list alone; otherwise append it. */
    method AddParticipant(input: string) returns (outcome: AddOutcome)
      requires Valid()
      modifies this
      ensures Valid()
      ensures var name := Text.Trim(input);
        if name == [] then outcome == EmptyName && participants == old(participants)
        else if name in old(participants) then outcome == DuplicateName && participants == old(participants)
        else outcome == Added(name) && participants == old(participants) + [name]
    {
      var name := Text.Trim(input);
      if name == [] {
        return EmptyName;
      }
      if name in participants {
        return DuplicateName;
      }
      AppendKeepsRoster(participants, name);
      participants := participants + [name];
      outcome := Added(name);
    }

    /** `removeParticipant`: `participants.filter(p => p !== name)`. */
    method RemoveParticipant(name: string)
      requires Valid()
      modifies this
      ensures Valid()
      ensures participants == Without(old(participants), name)
    {
      WithoutKeepsRoster(participants, name);
      participants := Without(participants, name);
    }
  }

  /** Adding "Ana" twice lists Ana once and reports the second as a duplicate. */
  method DuplicateNameScenario() returns (first: AddOutcome, second: AddOutcome, count: nat)
    ensures first == Added("Ana") && second == DuplicateName && count == 1
  {
    var organizer := new Organizer();
    Text.TrimOfTrimmed("Ana");
    first := organizer.AddParticipant("Ana");
    second := organizer.AddParticipant("Ana");
    count := |organizer.participants|;
  }
}
