/** The array operations the app relies on: `filter(p => p !== x)`,
    `includes`, `indexOf` and `splice(i, 1)`, over sequences of names. */
module Seqs {

  /** No element occurs twice. */
  predicate NoDup<T(==)>(s: seq<T>) {
    forall i, j :: 0 <= i < j < |s| ==> s[i] != s[j]
  }

  /** `r` is obtained from `s` by deleting some elements, keeping the rest in order. */
  predicate IsSubsequence<T(==)>(r: seq<T>, s: seq<T>)
    decreases |s|
  {
    r == [] ||
    (s != [] && ((r[0] == s[0] && IsSubsequence(r[1..], s[1..])) || IsSubsequence(r, s[1..])))
  }

  /** `s.filter(p => p !== x)`: every element other than `x`, in order. */
  function Without<T(==)>(s: seq<T>, x: T): (r: seq<T>)
    ensures IsSubsequence(r, s)
    ensures multiset(r) == multiset(s)[x := 0]
  {
    if s == [] then []
    else
      assert s == [s[0]] + s[1..];
      if s[0] == x then
        assert multiset(s)[x := 0] == multiset(s[1..])[x := 0];
        Without(s[1..], x)
      else
        [s[0]] + Without(s[1..], x)
  }

  /** A subsequence never holds more copies of anything than the sequence it came from. */
  lemma {:induction false} SubsequenceMultiset<T>(r: seq<T>, s: seq<T>)
    requires IsSubsequence(r, s)
    ensures multiset(r) <= multiset(s)
    decreases |s|
  {
    if r != [] {
      assert s == [s[0]] + s[1..];
      if r[0] == s[0] && IsSubsequence(r[1..], s[1..]) {
        SubsequenceMultiset(r[1..], s[1..]);
        assert r == [r[0]] + r[1..];
      } else {
        SubsequenceMultiset(r, s[1..]);
      }
    }
  }

  /** The filter is the only order-preserving selection from `s` that drops
      every `x` and keeps every other element: `Without` is characterised by
      its two postconditions. */
  lemma {:induction false} WithoutUnique<T>(r: seq<T>, s: seq<T>, x: T)
    requires IsSubsequence(r, s)
    requires multiset(r) == multiset(s)[x := 0]
    ensures r == Without(s, x)
    decreases |s|
  {
    if s == [] {
      assert |multiset(r)| == 0;
    } else if r != [] && r[0] == s[0] && IsSubsequence(r[1..], s[1..]) {
      KeptHead(r, s, x);
      WithoutUnique(r[1..], s[1..], x);
      assert r == [r[0]] + r[1..];
    } else {
      assert IsSubsequence(r, s[1..]);
      SubsequenceMultiset(r, s[1..]);
      DroppedHead(r, s, x);
      WithoutUnique(r, s[1..], x);
    }
  }

  /** When the selection keeps the head of `s`, that head is not `x`, and the
      tails are related as the whole sequences were. */
  lemma KeptHead<T>(r: seq<T>, s: seq<T>, x: T)
    requires r != [] && s != [] && r[0] == s[0]
    requires multiset(r) == multiset(s)[x := 0]
    ensures s[0] != x
    ensures multiset(r[1..]) == multiset(s[1..])[x := 0]
  {
    var h := s[0];
    assert s == [h] + s[1..];
    assert r == [h] + r[1..];
    assert multiset(r)[h] >= 1;
    forall y ensures multiset(r[1..])[y] == multiset(s[1..])[x := 0][y] {
      assert multiset(r)[y] == multiset(r[1..])[y] + (if y == h then 1 else 0);
      assert multiset(s)[y] == multiset(s[1..])[y] + (if y == h then 1 else 0);
    }
  }

  /** When the selection skips the head of `s`, that head is `x`. */
  lemma DroppedHead<T>(r: seq<T>, s: seq<T>, x: T)
    requires s != [] && multiset(r) <= multiset(s[1..])
    requires multiset(r) == multiset(s)[x := 0]
    ensures s[0] == x
    ensures multiset(r) == multiset(s[1..])[x := 0]
  {
    var h := s[0];
    assert s == [h] + s[1..];
    assert multiset(s)[h] == multiset(s[1..])[h] + 1;
    forall y ensures multiset(r)[y] == multiset(s[1..])[x := 0][y] {
      assert multiset(s)[y] == multiset(s[1..])[y] + (if y == h then 1 else 0);
    }
  }

  /** A sequence is duplicate-free exactly when nothing occurs in it more than once. */
  lemma {:induction false} NoDupIffSingleCounts<T>(s: seq<T>)
    ensures NoDup(s) <==> forall y :: multiset(s)[y] <= 1
  {
    if s != [] {
      assert s == [s[0]] + s[1..];
      NoDupIffSingleCounts(s[1..]);
      if NoDup(s) {
        assert s[0] !in s[1..];
      }
      if forall y :: multiset(s)[y] <= 1 {
        assert multiset(s)[s[0]] == multiset(s[1..])[s[0]] + 1;
        assert multiset(s[1..])[s[0]] == 0;
        forall y ensures multiset(s[1..])[y] <= 1 {
          assert multiset(s)[y] >= multiset(s[1..])[y];
        }
        forall i, j | 0 <= i < j < |s| ensures s[i] != s[j] {
          if i == 0 {
            assert s[j] == s[1..][j - 1];
            assert s[j] in multiset(s[1..]);
          } else {
            assert s[i] == s[1..][i - 1] && s[j] == s[1..][j - 1];
          }
        }
      }
    }
  }

  /** In a duplicate-free sequence each member occurs exactly once. */
  lemma NoDupCount<T>(s: seq<T>, y: T)
    requires NoDup(s)
    ensures multiset(s)[y] == if y in s then 1 else 0
  {
    NoDupIffSingleCounts(s);
  }

  /** Filtering a duplicate-free sequence leaves it duplicate-free. */
  lemma WithoutKeepsNoDup<T>(s: seq<T>, x: T)
    requires NoDup(s)
    ensures NoDup(Without(s, x))
  {
    NoDupIffSingleCounts(s);
    NoDupIffSingleCounts(Without(s, x));
  }

  /** `indexOf`: the position of the first `x` in `s`, or -1 when there is none. */
  function IndexOf<T(==)>(s: seq<T>, x: T): (r: int)
    ensures -1 <= r < |s|
    ensures r == -1 <==> x !in s
    ensures 0 <= r ==> s[r] == x && x !in s[..r]
  {
    if s == [] then -1
    else if s[0] == x then 0
    else
      var k := IndexOf(s[1..], x);
      assert s[1..] == s[1..][..|s| - 1];
      if k == -1 then -1
      else
        assert s[..k + 1] == [s[0]] + s[1..][..k];
        k + 1
  }

  /** `splice(i, 1)`: the element at `i` taken out, the others kept in order. */
  function RemoveAt<T>(s: seq<T>, i: nat): (r: seq<T>)
    requires i < |s|
    ensures |r| == |s| - 1
    ensures forall k :: 0 <= k < i ==> r[k] == s[k]
    ensures forall k :: i <= k < |r| ==> r[k] == s[k + 1]
    ensures multiset(r) == multiset(s) - multiset{s[i]}
  {
    assert s == s[..i] + [s[i]] + s[i + 1..];
    s[..i] + s[i + 1..]
  }
}
