/** The drawing loop of `generateCodes`: who gives a present to whom. */
module Drawing {
  import opened Seqs
  import opened Oracle
  import Codes

  /** The drawing gives up after this many attempts. */
  const MaxAttempts: nat := 100
  /** Oracle values one assigned giver consumes: one to pick the receiver,
      then the six characters of the giver's code. */
  const DrawsPerGiver: nat := 1 + Codes.RandomLength

  /** One pairing: `giver` buys a present for `receiver` and redeems `code` to learn who. */
  datatype Assignment<T> = Assignment(giver: T, receiver: T, code: string)

  function Givers<T(==)>(assignments: seq<Assignment<T>>): (g: seq<T>)
    ensures |g| == |assignments|
    ensures forall i :: 0 <= i < |g| ==> g[i] == assignments[i].giver
  {
    seq(|assignments|, i requires 0 <= i < |assignments| => assignments[i].giver)
  }

  function Receivers<T(==)>(assignments: seq<Assignment<T>>): (r: seq<T>)
    ensures |r| == |assignments|
    ensures forall i :: 0 <= i < |r| ==> r[i] == assignments[i].receiver
  {
    seq(|assignments|, i requires 0 <= i < |assignments| => assignments[i].receiver)
  }

  /** The participants nobody has drawn yet, counted with multiplicity. */
  function Pool<T(==)>(roster: seq<T>, assignments: seq<Assignment<T>>): multiset<T> {
    multiset(roster) - multiset(Receivers(assignments))
  }

  /** Every assignment carries a well-formed code. */
  predicate WellFormedCodes<T(==)>(assignments: seq<Assignment<T>>) {
    forall i :: 0 <= i < |assignments| ==> Codes.IsCode(assignments[i].code)
  }

  /** The first `|assignments|` givers of `roster`, in roster order, each paired
      with somebody else, no participant drawn more often than it is listed. */
  predicate IsPartialDrawing<T(==)>(roster: seq<T>, assignments: seq<Assignment<T>>) {
    |assignments| <= |roster| &&
    (forall i :: 0 <= i < |assignments| ==>
       assignments[i].giver == roster[i] && assignments[i].receiver != roster[i]) &&
    multiset(Receivers(assignments)) <= multiset(roster)
  }

  /** A complete drawing: one assignment per participant in roster order, nobody
      drawing themselves, and the receivers a permutation of the roster (so the
      pairing is a derangement). */
  predicate IsDrawing<T(==)>(roster: seq<T>, assignments: seq<Assignment<T>>) {
    IsPartialDrawing(roster, assignments) &&
    |assignments| == |roster| &&
    multiset(Receivers(assignments)) == multiset(roster)
  }

  /** An attempt that is stuck: the next giver finds nobody but themselves left in the pool. */
  predicate IsDeadEnd<T(==)>(roster: seq<T>, assignments: seq<Assignment<T>>) {
    IsPartialDrawing(roster, assignments) &&
    |assignments| < |roster| &&
    forall x :: x in Pool(roster, assignments) ==> x == roster[|assignments|]
  }

  /** Appending an assignment with a well-formed code keeps every code well formed. */
  lemma CodesAppend<T>(assignments: seq<Assignment<T>>, a: Assignment<T>)
    requires WellFormedCodes(assignments) && Codes.IsCode(a.code)
    ensures WellFormedCodes(assignments + [a])
  {
    assert forall i :: 0 <= i < |assignments| ==> (assignments + [a])[i] == assignments[i];
  }

  /** `assignments.push(...)` adds the new receiver at the end of the receivers. */
  lemma ReceiversAppend<T>(assignments: seq<Assignment<T>>, a: Assignment<T>)
    ensures Receivers(assignments + [a]) == Receivers(assignments) + [a.receiver]
  {
  }

  /** When `filter(p => p !== giver)` leaves nothing, the pool held nobody but the giver. */
  lemma {:induction false} OnlyGiverLeft<T>(available: seq<T>, giver: T)
    requires Without(available, giver) == []
    ensures forall x :: x in available ==> x == giver
  {
    if available != [] {
      assert available[0] == giver;
      OnlyGiverLeft(available[1..], giver);
      assert available == [available[0]] + available[1..];
    }
  }

  /** Whoever `filter(p => p !== giver)` offers is in the pool and is not the giver. */
  lemma ChosenIsAvailable<T>(available: seq<T>, giver: T, j: nat)
    requires j < |Without(available, giver)|
    ensures Without(available, giver)[j] in available
    ensures Without(available, giver)[j] != giver
  {
    var r := Without(available, giver)[j];
    assert r in multiset(Without(available, giver));
  }

  /** A partial drawing that has emptied the pool is complete. */
  lemma EmptyPoolCompletes<T>(roster: seq<T>, assignments: seq<Assignment<T>>)
    requires IsPartialDrawing(roster, assignments)
    requires Pool(roster, assignments) == multiset{}
    ensures IsDrawing(roster, assignments)
  {
    var drawn := multiset(Receivers(assignments));
    assert multiset(roster) == Pool(roster, assignments) + drawn;
    assert |roster| == |multiset(roster)| == |drawn| == |assignments|;
  }

  /** Moving one element from the pool to the drawn receivers keeps the
      pool equal to the participants not yet drawn. */
  lemma MoveToDrawn<T>(everyone: multiset<T>, drawn: multiset<T>, pool: multiset<T>, x: T)
    requires drawn <= everyone && pool == everyone - drawn && x in pool
    ensures drawn + multiset{x} <= everyone
    ensures pool - multiset{x} == everyone - (drawn + multiset{x})
  {
    forall y ensures (pool - multiset{x})[y] == (everyone - (drawn + multiset{x}))[y] {
      assert pool[y] == everyone[y] - drawn[y];
    }
  }

  /** One giver's turn: pairing the next giver with a receiver taken from the
      pool (and spliced out of it) extends a partial drawing to a partial drawing. */
  lemma DrawStep<T>(roster: seq<T>, assignments: seq<Assignment<T>>, available: seq<T>,
                    at: nat, code: string)
    requires IsPartialDrawing(roster, assignments) && |assignments| < |roster|
    requires multiset(available) == Pool(roster, assignments)
    requires at < |available| && available[at] != roster[|assignments|]
    ensures var extended := assignments + [Assignment(roster[|assignments|], available[at], code)];
      IsPartialDrawing(roster, extended) &&
      multiset(RemoveAt(available, at)) == Pool(roster, extended)
  {
    var giver, receiver := roster[|assignments|], available[at];
    var extended := assignments + [Assignment(giver, receiver, code)];
    ReceiversAppend(assignments, Assignment(giver, receiver, code));
    assert multiset(Receivers(extended)) == multiset(Receivers(assignments)) + multiset{receiver};
    assert receiver in multiset(available);
    MoveToDrawn(multiset(roster), multiset(Receivers(assignments)), multiset(available), receiver);
    forall i | 0 <= i < |extended|
      ensures extended[i].giver == roster[i] && extended[i].receiver != roster[i]
    {
      if i < |assignments| {
        assert extended[i] == assignments[i];
      }
    }
  }

  /** One pass of the outer `while` of `generateCodes`: each participant in
      turn draws a receiver at random among those still `available` other than
      themselves, and that receiver leaves the pool; an empty choice makes the
      attempt invalid. The result is a derangement when valid and a dead end
      otherwise. */
  method DrawAttempt<T(==)>(participants: seq<T>, rand: nat -> real, cursor: nat)
    returns (valid: bool, assignments: seq<Assignment<T>>, next: nat)
    requires IsUnitOracle(rand)
    ensures valid ==> IsDrawing(participants, assignments)
    ensures !valid ==> IsDeadEnd(participants, assignments)
    ensures WellFormedCodes(assignments)
    ensures next == cursor + DrawsPerGiver * |assignments|
  {
    assignments := [];
    var available := participants;
    valid := true;
    next := cursor;
    var i := 0;
    while i < |participants|
      invariant i == |assignments| <= |participants|
      invariant IsPartialDrawing(participants, assignments)
      invariant WellFormedCodes(assignments)
      invariant multiset(available) == Pool(participants, assignments)
      invariant next == cursor + DrawsPerGiver * i
    {
      var giver := participants[i];
      var possibleReceivers := Without(available, giver);
      if |possibleReceivers| == 0 {
        OnlyGiverLeft(available, giver);
        valid := false;
        break;
      }
      var randomIndex := Pick(rand(next), |possibleReceivers|);
      var receiver := possibleReceivers[randomIndex];
      ChosenIsAvailable(available, giver, randomIndex);
      var code;
      code, next := Codes.GenerateRandomCode(rand, next + 1);
      var at := IndexOf(available, receiver);
      DrawStep(participants, assignments, available, at, code);
      CodesAppend(assignments, Assignment(giver, receiver, code));
      assignments := assignments + [Assignment(giver, receiver, code)];
      available := RemoveAt(available, at);
      i := i + 1;
    }
    if valid {
      assert |multiset(available)| == 0;
      EmptyPoolCompletes(participants, assignments);
    }
  }

  /** The `while (!valid && attempts < 100)` loop of `generateCodes`: fresh
      attempts until one is valid or a hundred have been made. */
  method Draw<T(==)>(participants: seq<T>, rand: nat -> real, cursor: nat)
    returns (valid: bool, attempts: nat, assignments: seq<Assignment<T>>, next: nat)
    requires IsUnitOracle(rand)
    ensures 1 <= attempts <= MaxAttempts
    ensures valid ==> IsDrawing(participants, assignments) && WellFormedCodes(assignments)
    ensures !valid ==> attempts == MaxAttempts && IsDeadEnd(participants, assignments)
    ensures cursor <= next
  {
    valid := false;
    attempts := 0;
    assignments := [];
    next := cursor;
    while !valid && attempts < MaxAttempts
      invariant attempts <= MaxAttempts && cursor <= next
      invariant attempts == 0 ==> !valid
      invariant 0 < attempts && valid ==>
        IsDrawing(participants, assignments) && WellFormedCodes(assignments)
      invariant 0 < attempts && !valid ==> IsDeadEnd(participants, assignments)
      decreases MaxAttempts - attempts
    {
      valid, assignments, next := DrawAttempt(participants, rand, next);
      attempts := attempts + 1;
    }
  }

  /** With a duplicate-free roster an attempt can only get stuck at the very
      last giver, when the one participant left undrawn is that giver. */
  lemma DeadEndOnlyAtLastGiver<T>(roster: seq<T>, assignments: seq<Assignment<T>>)
    requires NoDup(roster) && IsDeadEnd(roster, assignments)
    ensures |assignments| == |roster| - 1
    ensures Pool(roster, assignments) == multiset{roster[|roster| - 1]}
  {
    var k := |assignments|;
    var y := roster[k];
    var p := Pool(roster, assignments);
    var drawn := multiset(Receivers(assignments));
    assert multiset(roster) == p + drawn;
    assert |p| == |roster| - k;
    NoDupCount(roster, y);
    var rest := p - multiset{y};
    assert rest == multiset{};
    assert y in p;
    assert p == rest + multiset{y};
  }

  /** Each participant of a duplicate-free roster gives exactly once and
      receives exactly once in a complete drawing. */
  lemma DrawingIsBijection<T>(roster: seq<T>, assignments: seq<Assignment<T>>)
    requires NoDup(roster) && IsDrawing(roster, assignments)
    ensures Givers(assignments) == roster
    ensures NoDup(Receivers(assignments))
    ensures forall p :: p in Receivers(assignments) <==> p in roster
  {
    NoDupIffSingleCounts(roster);
    NoDupIffSingleCounts(Receivers(assignments));
    forall p ensures p in Receivers(assignments) <==> p in roster {
      assert p in Receivers(assignments) <==> p in multiset(Receivers(assignments));
    }
  }

  /** Three distinct names permuted with no name left in its place form one
      of the two three-cycles. */
  lemma ThreeCycles<T>(a: T, b: T, c: T, r0: T, r1: T, r2: T)
    requires a != b && b != c && a != c
    requires r0 != a && r1 != b && r2 != c
    requires multiset{r0, r1, r2} == multiset{a, b, c}
    ensures (r0 == b && r1 == c && r2 == a) || (r0 == c && r1 == a && r2 == b)
  {
    var m := multiset{r0, r1, r2};
    assert r0 in m && r1 in m && r2 in m;
    assert m[a] == 1 && m[b] == 1 && m[c] == 1;
  }

  /** Over three participants, each complete drawing is one of the two three-cycles. */
  lemma ThreeDrawingsAreCycles<T>(a: T, b: T, c: T, assignments: seq<Assignment<T>>)
    requires a != b && b != c && a != c
    requires IsDrawing([a, b, c], assignments)
    ensures Receivers(assignments) == [b, c, a] || Receivers(assignments) == [c, a, b]
  {
    var r := Receivers(assignments);
    assert r == [r[0], r[1], r[2]];
    assert multiset(r) == multiset{r[0], r[1], r[2]};
    assert multiset([a, b, c]) == multiset{a, b, c};
    ThreeCycles(a, b, c, r[0], r[1], r[2]);
  }

  /** Over three participants, the three-cycle a→b→c→a is a complete drawing. */
  lemma ForwardCycleIsDrawing<T>(a: T, b: T, c: T, code0: string, code1: string, code2: string)
    requires a != b && b != c && a != c
    ensures IsDrawing([a, b, c], [Assignment(a, b, code0), Assignment(b, c, code1), Assignment(c, a, code2)])
  {
    assert Receivers([Assignment(a, b, code0), Assignment(b, c, code1), Assignment(c, a, code2)]) == [b, c, a];
    assert multiset([b, c, a]) == multiset([a, b, c]);
  }

  /** Over three participants, the three-cycle a→c→b→a is a complete drawing. */
  lemma BackwardCycleIsDrawing<T>(a: T, b: T, c: T, code0: string, code1: string, code2: string)
    requires a != b && b != c && a != c
    ensures IsDrawing([a, b, c], [Assignment(a, c, code0), Assignment(b, a, code1), Assignment(c, b, code2)])
  {
    assert Receivers([Assignment(a, c, code0), Assignment(b, a, code1), Assignment(c, b, code2)]) == [c, a, b];
    assert multiset([c, a, b]) == multiset([a, b, c]);
  }

  /** Over three participants, both three-cycles are complete drawings. */
  lemma ThreeCyclesAreDrawings<T>(a: T, b: T, c: T, assignments: seq<Assignment<T>>)
    requires a != b && b != c && a != c && |assignments| == 3
    requires Givers(assignments) == [a, b, c]
    requires Receivers(assignments) == [b, c, a] || Receivers(assignments) == [c, a, b]
    ensures IsDrawing([a, b, c], assignments)
  {
    var g, r := Givers(assignments), Receivers(assignments);
    assert assignments == [Assignment(g[0], r[0], assignments[0].code),
                           Assignment(g[1], r[1], assignments[1].code),
                           Assignment(g[2], r[2], assignments[2].code)];
    if r == [b, c, a] {
      ForwardCycleIsDrawing(a, b, c, assignments[0].code, assignments[1].code, assignments[2].code);
    } else {
      BackwardCycleIsDrawing(a, b, c, assignments[0].code, assignments[1].code, assignments[2].code);
    }
  }

  /** With three participants the complete drawings are exactly the two
      three-cycles a→b→c→a and a→c→b→a. */
  lemma ThreeParticipants<T>(a: T, b: T, c: T, assignments: seq<Assignment<T>>)
    requires a != b && b != c && a != c && |assignments| == 3
    requires Givers(assignments) == [a, b, c]
    ensures IsDrawing([a, b, c], assignments) <==>
      Receivers(assignments) == [b, c, a] || Receivers(assignments) == [c, a, b]
  {
    if IsDrawing([a, b, c], assignments) {
      ThreeDrawingsAreCycles(a, b, c, assignments);
    }
    if Receivers(assignments) == [b, c, a] || Receivers(assignments) == [c, a, b] {
      ThreeCyclesAreDrawings(a, b, c, assignments);
    }
  }

  /** The pool an attempt over a, b, c has left after a→b and b→a. */
  lemma PoolAfterSwap<T>(a: T, b: T, c: T, code1: string, code2: string)
    requires a != b && b != c && a != c
    ensures Pool([a, b, c], [Assignment(a, b, code1), Assignment(b, a, code2)]) == multiset{c}
    ensures multiset(Receivers([Assignment(a, b, code1), Assignment(b, a, code2)])) <= multiset([a, b, c])
  {
    var stuck := [Assignment(a, b, code1), Assignment(b, a, code2)];
    assert Receivers(stuck) == [b, a];
    assert multiset([b, a]) == multiset{a, b};
    assert multiset([a, b, c]) == multiset{a, b, c};
  }

  /** Attempts really can get stuck: with three participants, after a→b and
      b→a only c is left, and c may not draw themselves. */
  lemma DeadEndIsPossible<T>(a: T, b: T, c: T, code1: string, code2: string)
    requires a != b && b != c && a != c
    ensures IsDeadEnd([a, b, c], [Assignment(a, b, code1), Assignment(b, a, code2)])
  {
    PoolAfterSwap(a, b, c, code1, code2);
  }
}
