/**
 * Small facts about sequences that the string, search and sort proofs use
 * to rearrange concatenations and slices one step at a time.
 */
module Seqs {

  lemma ConcatAssoc<T>(a: seq<T>, b: seq<T>, c: seq<T>)
    ensures (a + b) + c == a + (b + c)
  {
  }

  /** Putting an element in front of `r + s` and taking `r`'s head out again. */
  lemma HeadSwap<T>(y: T, r: seq<T>, s: seq<T>)
    requires |r| > 0
    ensures (r + s)[0] == r[0]
    ensures [y] + (r + s)[1..] == ([y] + r[1..]) + s
  {
    assert (r + s)[1..] == r[1..] + s;
  }

  lemma SplitLast<T>(t: seq<T>, j: int)
    requires 0 <= j < |t|
    ensures t[j..] == t[j..|t| - 1] + [t[|t| - 1]]
  {
  }

  lemma PrefixOfPrefix<T>(s: seq<T>, i: int)
    requires 0 <= i < |s|
    ensures s[..i + 1][..i] == s[..i] && s[..i + 1][i] == s[i]
  {
  }

  lemma DropCommonPrefix<T>(p: seq<T>, x: seq<T>, y: seq<T>)
    requires p + x == p + y
    ensures x == y
  {
    assert x == (p + x)[|p|..];
    assert y == (p + y)[|p|..];
  }
}
