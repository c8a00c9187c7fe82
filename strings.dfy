/** Small facts about strings shared by the parser's error formatting and the line buffer. */
module Strings {

  /** The number of occurrences of `c` in `s`. */
  function Count(s: string, c: char): nat
  {
    if s == [] then 0 else Count(s[..|s| - 1], c) + (if s[|s| - 1] == c then 1 else 0)
  }

  lemma {:induction false} CountAppend(a: string, b: string, c: char)
    ensures Count(a + b, c) == Count(a, c) + Count(b, c)
    decreases |b|
  {
    if b == [] {
      assert a + b == a;
    } else {
      var b' := b[..|b| - 1];
      assert (a + b)[..|a + b| - 1] == a + b';
      CountAppend(a, b', c);
    }
  }

  lemma {:induction false} CountAbsent(s: string, c: char)
    ensures Count(s, c) == 0 <==> c !in s
    decreases |s|
  {
    if s != [] {
      var s' := s[..|s| - 1];
      CountAbsent(s', c);
      assert s == s' + [s[|s| - 1]];
      assert c in s <==> c in s' || c == s[|s| - 1];
    }
  }

  /** The first position at or after `i` holding `c`, or `|s|` when there is none. */
  function Find(s: string, c: char, i: nat): (k: nat)
    requires i <= |s|
    ensures i <= k <= |s|
    ensures k < |s| ==> s[k] == c
    decreases |s| - i
  {
    if i == |s| || s[i] == c then i else Find(s, c, i + 1)
  }

  /** Nothing between `i` and `Find(s, c, i)` is `c`. */
  lemma {:induction false} FindSkips(s: string, c: char, i: nat)
    requires i <= |s|
    ensures forall j | i <= j < Find(s, c, i) :: s[j] != c
    decreases |s| - i
  {
    if i < |s| && s[i] != c {
      FindSkips(s, c, i + 1);
    }
  }

  /** JavaScript's `str.indexOf(c)`: the first index holding `c`, or -1 when there is none. */
  function IndexOf(s: string, c: char): (k: int)
    ensures -1 <= k < |s|
    ensures k == -1 <==> c !in s
    ensures 0 <= k ==> s[k] == c && forall j | 0 <= j < k :: s[j] != c
  {
    FindSkips(s, c, 0);
    var k := Find(s, c, 0);
    if k == |s| then -1 else k
  }

  /** A slice cut in two. */
  lemma SliceJoin(s: string, i: nat, j: nat, k: nat)
    requires i <= j <= k <= |s|
    ensures s[i..k] == s[i..j] + s[j..k]
  {
  }

  /** A slice cut around two single characters at `i` and `j`. */
  lemma SliceAround(s: string, i: nat, j: nat, k: nat)
    requires i < j < k <= |s|
    ensures s[i..k] == [s[i]] + s[i + 1..j] + [s[j]] + s[j + 1..k]
  {
    assert s[i..k] == [s[i]] + s[i + 1..k];
    assert s[i + 1..k] == s[i + 1..j] + [s[j]] + s[j + 1..k];
  }
}
