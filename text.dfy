/** String primitives the app applies to what users type: `String.prototype.trim`,
    with JavaScript's full set of whitespace characters, and an ASCII-only
    version of `String.prototype.toUpperCase`. */
module Text {

  /** The characters `trim` strips: ECMAScript's WhiteSpace and LineTerminator
      code points (tab, line feed, vertical tab, form feed, carriage return,
      space, no-break space, the Unicode space separators, line and paragraph
      separators and the byte-order mark). */
  predicate IsWhitespace(c: char) {
    var n := c as int;
    (9 <= n <= 13) || n == 0x20 || n == 0xA0 || n == 0x1680 ||
    (0x2000 <= n <= 0x200A) || n == 0x2028 || n == 0x2029 ||
    n == 0x202F || n == 0x205F || n == 0x3000 || n == 0xFEFF
  }

  /** True when neither end of `s` is whitespace: what `trim` returns. */
  predicate IsTrimmed(s: string) {
    s == [] || (!IsWhitespace(s[0]) && !IsWhitespace(s[|s| - 1]))
  }

  /** The number of whitespace characters `s` starts with. */
  function LeadingWhitespace(s: string): (n: nat)
    ensures n <= |s|
    ensures n == |s| || !IsWhitespace(s[n])
    ensures forall i :: 0 <= i < n ==> IsWhitespace(s[i])
  {
    if s != [] && IsWhitespace(s[0]) then 1 + LeadingWhitespace(s[1..]) else 0
  }

  /** The number of whitespace characters `s` ends with. */
  function TrailingWhitespace(s: string): (n: nat)
    ensures n <= |s|
    ensures n == |s| || !IsWhitespace(s[|s| - 1 - n])
    ensures forall i :: |s| - n <= i < |s| ==> IsWhitespace(s[i])
  {
    if s != [] && IsWhitespace(s[|s| - 1]) then 1 + TrailingWhitespace(s[..|s| - 1]) else 0
  }

  /** `String.prototype.trim`: both ends stripped of whitespace. */
  function Trim(s: string): (r: string)
    ensures IsTrimmed(r) && |r| <= |s|
  {
    var t := s[LeadingWhitespace(s)..];
    t[..|t| - TrailingWhitespace(t)]
  }

  /** What `trim` keeps is one contiguous piece of the input, and everything it
      cuts off on either side is whitespace. */
  lemma TrimKeepsInfix(s: string)
    ensures var a := LeadingWhitespace(s);
      a + |Trim(s)| <= |s| &&
      (forall i :: 0 <= i < |Trim(s)| ==> Trim(s)[i] == s[a + i]) &&
      (forall i :: 0 <= i < a ==> IsWhitespace(s[i])) &&
      (forall i :: a + |Trim(s)| <= i < |s| ==> IsWhitespace(s[i]))
  {
    var a := LeadingWhitespace(s);
    var t := s[a..];
    var r := Trim(s);
    forall i | a + |r| <= i < |s|
      ensures IsWhitespace(s[i])
    {
      assert s[i] == t[i - a];
    }
  }

  /** A string that is already trimmed is left as it is. */
  lemma {:induction false} TrimOfTrimmed(s: string)
    requires IsTrimmed(s)
    ensures Trim(s) == s
  {
    assert LeadingWhitespace(s) == 0;
    assert TrailingWhitespace(s) == 0;
  }

  /** Trimming twice is trimming once. */
  lemma TrimIdempotent(s: string)
    ensures Trim(Trim(s)) == Trim(s)
  {
    TrimOfTrimmed(Trim(s));
  }

  /** `trim` yields the empty string exactly when the input is all whitespace
      (the empty input included). */
  lemma TrimEmptyIff(s: string)
    ensures Trim(s) == [] <==> forall i :: 0 <= i < |s| ==> IsWhitespace(s[i])
  {
    if Trim(s) != [] {
      TrimKeepsInfix(s);
      var a := LeadingWhitespace(s);
      assert s[a] == Trim(s)[0];
    }
  }

  /** ASCII-only upper-casing of one character: a-z become A-Z, every other
      character is kept. */
  function UpperChar(c: char): (u: char)
    ensures 'a' <= c <= 'z' ==> u as int == c as int - 32
    ensures !('a' <= c <= 'z') ==> u == c
  {
    if 'a' <= c <= 'z' then (c as int - 32) as char else c
  }

  /** ASCII-only upper-casing of a string, one character at a time. It agrees
      with `String.prototype.toUpperCase` on ASCII text only. */
  function ToUpper(s: string): (r: string)
    ensures |r| == |s|
    ensures forall i :: 0 <= i < |s| ==> r[i] == UpperChar(s[i])
  {
    seq(|s|, i requires 0 <= i < |s| => UpperChar(s[i]))
  }

  /** The normalisation applied to a typed redemption code: `trim()`, then
      upper-casing that is ASCII-only. */
  function Normalize(s: string): (r: string)
    ensures IsTrimmed(r) && |r| <= |s|
    ensures forall i :: 0 <= i < |r| ==> !('a' <= r[i] <= 'z')
  {
    ToUpper(Trim(s))
  }

  /** A normalised code is empty exactly when what was typed is blank. */
  lemma NormalizeEmptyIff(s: string)
    ensures Normalize(s) == [] <==> forall i :: 0 <= i < |s| ==> IsWhitespace(s[i])
  {
    TrimEmptyIff(s);
  }

  /** Upper-casing neither creates nor removes whitespace, and is idempotent. */
  lemma ToUpperKeepsTrimmed(s: string)
    requires IsTrimmed(s)
    ensures IsTrimmed(ToUpper(s))
    ensures ToUpper(ToUpper(s)) == ToUpper(s)
  {
  }

  /** Normalising an already normalised code changes nothing, so a code typed
      back exactly as it was displayed finds the same key. */
  lemma NormalizeIdempotent(s: string)
    ensures Normalize(Normalize(s)) == Normalize(s)
  {
    var t := Trim(s);
    ToUpperKeepsTrimmed(t);
    TrimOfTrimmed(ToUpper(t));
  }
}
