/** `Math.random` as an oracle: the app's n-th call to it returns `rand(n)`,
    a number in [0, 1). Callers pass the oracle and the number of calls
    already made, and get back the count after their own calls. */
module Oracle {

  /** Every value the oracle hands out lies in [0, 1), as `Math.random` promises. */
  ghost predicate IsUnitOracle(rand: nat -> real) {
    forall n: nat :: 0.0 <= rand(n) < 1.0
  }

  /** `Math.floor(r * k)`: a random index into a collection of `k` elements. */
  function Pick(r: real, k: nat): (i: nat)
    requires 0.0 <= r < 1.0 && 0 < k
    ensures i < k
  {
    var x := r * k as real;
    assert x < k as real by {
      assert r * k as real < 1.0 * k as real;
    }
    x.Floor
  }

  /** Every index of a `k`-element collection can come out of `Pick`. */
  lemma PickReachesEveryIndex(i: nat, k: nat)
    requires i < k
    ensures 0.0 <= i as real / k as real < 1.0
    ensures Pick(i as real / k as real, k) == i
  {
    var r := i as real / k as real;
    assert r * k as real == i as real;
  }
}

/** `generateRandomCode`: the redemption codes handed to givers. */
module Codes {
  import opened Oracle
  import Text

  const Prefix: string := "REGALO-"
  const Alphabet: string := "ABCDEFGHIJKLMNOPQRSTUVWXYZ0123456789"
  /** Number of random characters after the prefix. */
  const RandomLength: nat := 6

  /** A character of `Alphabet`: an upper-case ASCII letter or a digit. */
  predicate IsCodeChar(ch: char) {
    'A' <= ch <= 'Z' || '0' <= ch <= '9'
  }

  /** The `j`-th alphabet character, computed from its ASCII code. */
  function AlphabetChar(j: nat): char
    requires j < 36
  {
    if j < 26 then (65 + j) as char else (48 + j - 26) as char
  }

  /** The alphabet holds exactly the code characters, letters first, in ASCII order. */
  lemma AlphabetAt(j: nat)
    requires j < |Alphabet|
    ensures |Alphabet| == 36
    ensures Alphabet[j] == AlphabetChar(j)
    ensures IsCodeChar(Alphabet[j])
  {
  }

  /** A well-formed code: the prefix followed by six characters of the alphabet. */
  predicate IsCode(c: string) {
    |c| == |Prefix| + RandomLength &&
    c[..|Prefix|] == Prefix &&
    forall i :: |Prefix| <= i < |c| ==> IsCodeChar(c[i])
  }

  /** The character drawn from the oracle's `n`-th value. */
  function CodeChar(rand: nat -> real, n: nat): (c: char)
    requires IsUnitOracle(rand)
    ensures IsCodeChar(c)
  {
    AlphabetChar(Pick(rand(n), 36))
  }

  /** `chars.charAt(Math.floor(Math.random() * chars.length))`: the drawn
      character is the alphabet's character at the picked index. */
  lemma CodeCharAt(rand: nat -> real, n: nat)
    requires IsUnitOracle(rand)
    ensures CodeChar(rand, n) == Alphabet[Pick(rand(n), |Alphabet|)]
  {
    AlphabetAt(Pick(rand(n), 36));
  }

  /** The `k` characters drawn from the oracle's values `from`, `from + 1`, .... */
  function Drawn(rand: nat -> real, from: nat, k: nat): (s: string)
    requires IsUnitOracle(rand)
    ensures |s| == k
  {
    if k == 0 then [] else Drawn(rand, from, k - 1) + [CodeChar(rand, from + k - 1)]
  }

  /** The `i`-th drawn character comes from the oracle's value `from + i`. */
  lemma {:induction false} DrawnAt(rand: nat -> real, from: nat, k: nat)
    requires IsUnitOracle(rand)
    ensures forall i :: 0 <= i < k ==> Drawn(rand, from, k)[i] == CodeChar(rand, from + i)
  {
    if k > 0 {
      var prev := Drawn(rand, from, k - 1);
      var s := Drawn(rand, from, k);
      DrawnAt(rand, from, k - 1);
      assert s == prev + [CodeChar(rand, from + k - 1)];
      forall i | 0 <= i < k
        ensures s[i] == CodeChar(rand, from + i)
      {
        if i < k - 1 {
          assert s[i] == prev[i];
        }
      }
    }
  }

  /** `generateRandomCode()`: the prefix, then six characters each picked with
      `chars.charAt(Math.floor(Math.random() * chars.length))`. Consumes six
      oracle values starting at `cursor`. */
  method GenerateRandomCode(rand: nat -> real, cursor: nat) returns (code: string, next: nat)
    requires IsUnitOracle(rand)
    ensures IsCode(code)
    ensures code == Prefix + Drawn(rand, cursor, RandomLength)
    ensures next == cursor + RandomLength
  {
    code := Prefix;
    next := cursor;
    for i := 0 to RandomLength
      invariant next == cursor + i
      invariant code == Prefix + Drawn(rand, cursor, i)
    {
      code := code + [CodeChar(rand, next)];
      next := next + 1;
    }
    DrawnCodeIsCode(rand, cursor);
  }

  /** The prefix followed by six drawn characters is a well-formed code. */
  lemma DrawnCodeIsCode(rand: nat -> real, from: nat)
    requires IsUnitOracle(rand)
    ensures IsCode(Prefix + Drawn(rand, from, RandomLength))
  {
    var d := Drawn(rand, from, RandomLength);
    var c := Prefix + d;
    DrawnAt(rand, from, RandomLength);
    assert c[..|Prefix|] == Prefix;
    forall i | |Prefix| <= i < |c|
      ensures IsCodeChar(c[i])
    {
      assert c[i] == d[i - |Prefix|];
    }
  }

  /** The oracle that makes `generateRandomCode` produce the characters `d`:
      its `n`-th value selects `d[n]` from the alphabet. */
  function OracleFor(d: string): (rand: nat -> real)
    requires forall i :: 0 <= i < |d| ==> IsCodeChar(d[i])
    ensures IsUnitOracle(rand)
  {
    var rand := (n: nat) => if n < |d| then IndexIn(d[n]) as real / 36 as real else 0.0;
    assert IsUnitOracle(rand) by {
      forall n: nat ensures 0.0 <= rand(n) < 1.0 {
        if n < |d| {
          PickReachesEveryIndex(IndexIn(d[n]), 36);
        }
      }
    }
    rand
  }

  /** The first `k` characters drawn from `OracleFor(d)` are those of `d`. */
  lemma {:induction false} OracleForDraws(d: string, k: nat)
    requires forall i :: 0 <= i < |d| ==> IsCodeChar(d[i])
    requires k <= |d|
    ensures Drawn(OracleFor(d), 0, k) == d[..k]
  {
    if k > 0 {
      var rand := OracleFor(d);
      OracleForDraws(d, k - 1);
      PickReachesEveryIndex(IndexIn(d[k - 1]), 36);
      assert CodeChar(rand, k - 1) == d[k - 1];
      assert d[..k] == d[..k - 1] + [d[k - 1]];
    }
  }

  /** Every well-formed code is what `generateRandomCode` produces for some
      run of `Math.random`. */
  lemma EveryCodeIsGenerated(c: string)
    requires IsCode(c)
    ensures exists rand: nat -> real :: IsUnitOracle(rand) && Prefix + Drawn(rand, 0, RandomLength) == c
  {
    var d := c[|Prefix|..];
    assert forall i :: 0 <= i < |d| ==> IsCodeChar(d[i]) by {
      forall i | 0 <= i < |d| ensures IsCodeChar(d[i]) {
        assert d[i] == c[|Prefix| + i];
      }
    }
    var rand := OracleFor(d);
    OracleForDraws(d, RandomLength);
    assert d[..RandomLength] == d;
    assert c == c[..|Prefix|] + d;
  }

  /** The position of `ch` in the alphabet. */
  function IndexIn(ch: char): (i: nat)
    requires IsCodeChar(ch)
    ensures i < 36 && AlphabetChar(i) == ch
  {
    if 'A' <= ch <= 'Z' then ch as int - 65 else ch as int - 48 + 26
  }

  /** A generated code is already trimmed and upper-case, so typing it back
      exactly as displayed normalises to itself. */
  lemma CodeIsNormalized(c: string)
    requires IsCode(c)
    ensures Text.Normalize(c) == c
  {
    assert c[0] == 'R';
    assert !Text.IsWhitespace(c[|c| - 1]);
    Text.TrimOfTrimmed(c);
    forall i | 0 <= i < |c| ensures Text.UpperChar(c[i]) == c[i] {
      if i < |Prefix| {
        assert c[i] == Prefix[i];
      }
    }
  }
}
