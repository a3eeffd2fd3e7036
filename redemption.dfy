/** `revealWithCode`: a participant types the code they were given and learns
    whom they give a present to; the code is then deleted, so it works once. */
module Redemption {
  import opened Seqs
  import Text
  import Codes
  import opened Storage
  import opened Drawing
  import opened Sorteo

  /** What the participant sees: a request for a code, "invalid or already
      used", or the name of their receiver. */
  datatype RevealOutcome = EmptyCode | InvalidOrUsed | Revealed(receiver: string)

  /** The answer to typing `input` against the store contents `entries`. */
  function Reveal(entries: map<string, Record>, input: string): (o: RevealOutcome)
    ensures o == EmptyCode <==> forall i :: 0 <= i < |input| ==> Text.IsWhitespace(input[i])
    ensures o.Revealed? <==> Text.Normalize(input) != [] && Text.Normalize(input) in entries
    ensures o.Revealed? ==> o.receiver == entries[Text.Normalize(input)].receiver
  {
    Text.NormalizeEmptyIff(input);
    var code := Text.Normalize(input);
    if code == [] then EmptyCode
    else if code !in entries then InvalidOrUsed
    else Revealed(entries[code].receiver)
  }

  /** The store contents after typing `input`: the code is gone once revealed. */
  function AfterReveal(entries: map<string, Record>, input: string): (after: map<string, Record>)
    ensures forall k :: k in after ==> k in entries && after[k] == entries[k]
    ensures forall k :: k in entries && k != Text.Normalize(input) ==> k in after
    ensures Text.Normalize(input) in after <==> Text.Normalize(input) in entries && !Reveal(entries, input).Revealed?
  {
    if Reveal(entries, input).Revealed? then entries - {Text.Normalize(input)} else entries
  }

  /** `revealWithCode`: normalise the typed code, refuse it when empty, look it
      up, report a miss as "invalid or already used", and otherwise show the
      receiver and delete the code. */
  method RevealWithCode(store: SharedStore, input: string) returns (outcome: RevealOutcome)
    modifies store
    ensures outcome == Reveal(old(store.entries), input)
    ensures store.entries == AfterReveal(old(store.entries), input)
  {
    var code := Text.Normalize(input);
    if code == [] {
      return EmptyCode;
    }
    var result := store.Get(code);
    if result.None? {
      return InvalidOrUsed;
    }
    outcome := Revealed(result.value.receiver);
    store.Delete(code);
  }

  /** A blank code is refused, a code not in the store is "invalid or already
      used", and in both cases the store is left alone; a stored code reveals
      its record's receiver and removes that key and no other. */
  lemma RevealCases(entries: map<string, Record>, input: string)
    ensures var code := Text.Normalize(input);
      (Reveal(entries, input) == EmptyCode <==> forall i :: 0 <= i < |input| ==> Text.IsWhitespace(input[i])) &&
      (Reveal(entries, input).Revealed? <==> code != [] && code in entries) &&
      (!Reveal(entries, input).Revealed? ==> AfterReveal(entries, input) == entries) &&
      (Reveal(entries, input).Revealed? ==>
         Reveal(entries, input).receiver == entries[code].receiver &&
         AfterReveal(entries, input).Keys == entries.Keys - {code} &&
         forall k :: k in AfterReveal(entries, input) ==> AfterReveal(entries, input)[k] == entries[k])
  {
    Text.NormalizeEmptyIff(input);
  }

  /** A code works once: after it has revealed a receiver, typing it again (in
      any spelling that normalises to it) is "invalid or already used". */
  lemma SecondRedemptionFails(entries: map<string, Record>, input: string, again: string)
    requires Reveal(entries, input).Revealed?
    requires Text.Normalize(again) == Text.Normalize(input)
    ensures Reveal(AfterReveal(entries, input), again) == InvalidOrUsed
  {
  }

  /** Redeeming one code leaves every other code of the store redeemable with
      the same answer. */
  lemma OtherCodesUnaffected(entries: map<string, Record>, input: string, other: string)
    requires Text.Normalize(other) != Text.Normalize(input)
    ensures Reveal(AfterReveal(entries, input), other) == Reveal(entries, other)
  {
  }

  /** After a drawing with pairwise distinct codes has been saved, the code
      issued to a giver, typed back as displayed, reveals that giver's receiver. */
  lemma IssuedCodeRevealsReceiver(entries: map<string, Record>, assignments: seq<Assignment<string>>,
                                  sorteoId: string, i: nat)
    requires WellFormedCodes(assignments) && NoDup(CodesOf(assignments)) && i < |assignments|
    ensures Reveal(SaveAll(entries, assignments, sorteoId), assignments[i].code) ==
            Revealed(assignments[i].receiver)
  {
    Codes.CodeIsNormalized(assignments[i].code);
    SavedUnderOwnCode(entries, assignments, sorteoId, i);
  }

  /** Redeeming the same stored code twice in a row: the receiver, then a refusal. */
  method RedeemTwice(store: SharedStore, input: string) returns (first: RevealOutcome, second: RevealOutcome)
    requires Reveal(store.entries, input).Revealed?
    modifies store
    ensures first == Reveal(old(store.entries), input) && first.Revealed?
    ensures second == InvalidOrUsed
  {
    first := RevealWithCode(store, input);
    second := RevealWithCode(store, input);
  }
}
