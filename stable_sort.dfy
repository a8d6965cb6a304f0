/**
 * Sorting with a comparator of the form `(a, b) => key(b) - key(a)`, as
 * Array.prototype.sort does it: larger keys first, and, because that sort
 * is stable, elements with equal keys in their original order.
 *
 * SortDesc is the specification (an insertion sort on sequences).
 * StableSortUnique shows that every stable sort with this comparator yields
 * exactly SortDesc, and SortInPlace sorts an array in place and leaves
 * SortDesc of its old contents.
 */
module StableSort {
  import opened Seqs

  /** The comparator: positive exactly when `b` must come before `a`. */
  function Compare<T>(key: T -> int, a: T, b: T): (c: int)
    ensures c > 0 <==> key(a) < key(b)
    ensures c == 0 <==> key(a) == key(b)
  {
    key(b) - key(a)
  }

  /** Larger keys first. */
  ghost predicate NonIncreasing<T>(s: seq<T>, key: T -> int) {
    forall i, j :: 0 <= i < j < |s| ==> key(s[i]) >= key(s[j])
  }

  /** The elements of `s` whose key is `v`, in their order in `s`. */
  function WithKey<T>(s: seq<T>, key: T -> int, v: int): seq<T> {
    if s == [] then []
    else (if key(s[0]) == v then [s[0]] else []) + WithKey(s[1..], key, v)
  }

  /**
   * `r` is a stable rearrangement of `s`: for every key value, the elements
   * with that key appear in `r` in the same order as in `s`.
   */
  ghost predicate StableFor<T>(r: seq<T>, s: seq<T>, key: T -> int) {
    forall v :: WithKey(r, key, v) == WithKey(s, key, v)
  }

  /**
   * Insert `x` into `t` just after the last element, counting from the
   * back, that the comparator does not rank below `x`.
   */
  function Insert<T>(x: T, t: seq<T>, key: T -> int): (r: seq<T>)
    ensures multiset(r) == multiset(t) + multiset{x}
  {
    if t == [] || Compare(key, t[|t| - 1], x) <= 0 then
      t + [x]
    else
      assert t == t[..|t| - 1] + [t[|t| - 1]];
      Insert(x, t[..|t| - 1], key) + [t[|t| - 1]]
  }

  /** Appending an element no larger than anything in the list keeps the order. */
  lemma AppendSmallest<T>(m: seq<T>, last: T, key: T -> int)
    requires NonIncreasing(m, key)
    requires forall i :: 0 <= i < |m| ==> key(m[i]) >= key(last)
    ensures NonIncreasing(m + [last], key)
  {
    forall i, j | 0 <= i < j < |m + [last]|
      ensures key((m + [last])[i]) >= key((m + [last])[j])
    {
      assert (m + [last])[i] == m[i];
      if j < |m| {
        assert (m + [last])[j] == m[j];
      }
    }
  }

  /** Inserting into a list in non-increasing order keeps it in that order. */
  lemma {:induction false} InsertSorted<T>(x: T, t: seq<T>, key: T -> int)
    requires NonIncreasing(t, key)
    ensures NonIncreasing(Insert(x, t, key), key)
  {
    if t == [] || Compare(key, t[|t| - 1], x) <= 0 {
      forall i | 0 <= i < |t| ensures key(t[i]) >= key(x) {
        assert key(t[i]) >= key(t[|t| - 1]) || i == |t| - 1;
      }
      AppendSmallest(t, x, key);
    } else {
      var last := t[|t| - 1];
      var init := t[..|t| - 1];
      assert t == init + [last];
      InsertSorted(x, init, key);
      var m := Insert(x, init, key);
      forall i | 0 <= i < |m| ensures key(m[i]) >= key(last) {
        assert m[i] in multiset(m);
        if m[i] != x {
          assert m[i] in multiset(init);
          var j :| 0 <= j < |init| && init[j] == m[i];
          assert t[j] == init[j];
        }
      }
      AppendSmallest(m, last, key);
    }
  }

  /** The sorted order: insertion sort, taking the elements in their original order. */
  function SortDesc<T>(s: seq<T>, key: T -> int): (r: seq<T>)
    ensures multiset(r) == multiset(s)
    ensures NonIncreasing(r, key)
  {
    if s == [] then []
    else
      assert s == s[..|s| - 1] + [s[|s| - 1]];
      InsertSorted(s[|s| - 1], SortDesc(s[..|s| - 1], key), key);
      Insert(s[|s| - 1], SortDesc(s[..|s| - 1], key), key)
  }

  lemma {:induction false} WithKeyConcat<T>(a: seq<T>, b: seq<T>, key: T -> int, v: int)
    ensures WithKey(a + b, key, v) == WithKey(a, key, v) + WithKey(b, key, v)
  {
    if a == [] {
      assert a + b == b;
    } else {
      assert (a + b)[0] == a[0] && (a + b)[1..] == a[1..] + b;
      WithKeyConcat(a[1..], b, key, v);
      if key(a[0]) == v {
        ConcatAssoc([a[0]], WithKey(a[1..], key, v), WithKey(b, key, v));
      }
    }
  }

  /** Inserting `x` places it after every element with the same key. */
  lemma {:induction false} InsertStable<T>(x: T, t: seq<T>, key: T -> int, v: int)
    ensures WithKey(Insert(x, t, key), key, v) == WithKey(t, key, v) + WithKey([x], key, v)
  {
    if t == [] || Compare(key, t[|t| - 1], x) <= 0 {
      WithKeyConcat(t, [x], key, v);
    } else {
      var last := t[|t| - 1];
      var init := t[..|t| - 1];
      assert t == init + [last];
      InsertStable(x, init, key, v);
      WithKeyConcat(Insert(x, init, key), [last], key, v);
      WithKeyConcat(init, [last], key, v);
      assert WithKey([x], key, v) == [] || WithKey([last], key, v) == [];
    }
  }

  /** SortDesc is stable. */
  lemma {:induction false} SortDescStable<T>(s: seq<T>, key: T -> int)
    ensures StableFor(SortDesc(s, key), s, key)
  {
    if s != [] {
      var init, last := s[..|s| - 1], s[|s| - 1];
      assert s == init + [last];
      SortDescStable(init, key);
      forall v ensures WithKey(SortDesc(s, key), key, v) == WithKey(s, key, v) {
        InsertStable(last, SortDesc(init, key), key, v);
        WithKeyConcat(init, [last], key, v);
      }
    }
  }

  /** An element occurs in the group of its own key as often as in the whole list. */
  lemma {:induction false} CountInGroup<T>(s: seq<T>, key: T -> int, x: T)
    ensures multiset(WithKey(s, key, key(x)))[x] == multiset(s)[x]
  {
    if s != [] {
      CountInGroup(s[1..], key, x);
      assert s == [s[0]] + s[1..];
    }
  }

  /** A stable rearrangement is a permutation. */
  lemma StableIsPermutation<T>(r: seq<T>, s: seq<T>, key: T -> int)
    requires StableFor(r, s, key)
    ensures multiset(r) == multiset(s)
  {
    forall x ensures multiset(r)[x] == multiset(s)[x] {
      CountInGroup(r, key, x);
      CountInGroup(s, key, x);
      assert WithKey(r, key, key(x)) == WithKey(s, key, key(x));
    }
  }

  /** Two non-increasing lists with the same groups start with the same element. */
  lemma SameHead<T>(a: seq<T>, b: seq<T>, key: T -> int)
    requires a != [] && b != []
    requires NonIncreasing(a, key) && NonIncreasing(b, key)
    requires multiset(a) == multiset(b)
    requires StableFor(a, b, key)
    ensures a[0] == b[0]
  {
    assert b[0] in multiset(a) && a[0] in multiset(b);
    var i :| 0 <= i < |a| && a[i] == b[0];
    var j :| 0 <= j < |b| && b[j] == a[0];
    assert key(a[0]) >= key(a[i]);
    assert key(b[0]) >= key(b[j]);
    var m := key(a[0]);
    var ga := WithKey(a, key, m);
    var gb := WithKey(b, key, m);
    assert ga == [a[0]] + WithKey(a[1..], key, m);
    assert gb == [b[0]] + WithKey(b[1..], key, m);
    assert ga == gb;
    assert ga[0] == a[0] && gb[0] == b[0];
  }

  /**
   * Two lists in non-increasing key order with the same per-key groups are
   * equal.
   */
  lemma {:induction false} SortedUnique<T>(a: seq<T>, b: seq<T>, key: T -> int)
    requires NonIncreasing(a, key) && NonIncreasing(b, key)
    requires StableFor(a, b, key)
    ensures a == b
    decreases |a|
  {
    StableIsPermutation(a, b, key);
    assert |a| == |multiset(a)| == |multiset(b)| == |b|;
    if a != [] {
      SameHead(a, b, key);
      forall v ensures WithKey(a[1..], key, v) == WithKey(b[1..], key, v) {
        assert WithKey(a, key, v) == WithKey(b, key, v);
        DropCommonPrefix(if key(a[0]) == v then [a[0]] else [], WithKey(a[1..], key, v), WithKey(b[1..], key, v));
      }
      SortedUnique(a[1..], b[1..], key);
      assert a == [a[0]] + a[1..] && b == [b[0]] + b[1..];
    }
  }

  /**
   * Any stable sort with this comparator yields SortDesc: a list in
   * non-increasing key order that keeps each key's elements in their
   * original order is SortDesc of the original list.
   */
  lemma StableSortUnique<T>(r: seq<T>, s: seq<T>, key: T -> int)
    requires NonIncreasing(r, key)
    requires StableFor(r, s, key)
    ensures r == SortDesc(s, key)
  {
    SortDescStable(s, key);
    SortedUnique(r, SortDesc(s, key), key);
  }

  /** Sorting a list that is already in order leaves it as it is. */
  lemma SortDescSorted<T>(s: seq<T>, key: T -> int)
    requires NonIncreasing(s, key)
    ensures SortDesc(s, key) == s
  {
    StableSortUnique(s, s, key);
  }

  /** Where Insert puts `x` when the last element of `t` ranks below it, given where it goes in the rest. */
  lemma InsertAtStep<T>(x: T, t: seq<T>, j: int, key: T -> int)
    requires 0 <= j < |t|
    requires key(t[|t| - 1]) < key(x)
    requires Insert(x, t[..|t| - 1], key) == t[..j] + [x] + t[j..|t| - 1]
    ensures Insert(x, t, key) == t[..j] + [x] + t[j..]
  {
    SplitLast(t, j);
    ConcatAssoc(t[..j] + [x], t[j..|t| - 1], [t[|t| - 1]]);
  }

  /**
   * Where Insert puts `x`: after `t[..j]` when everything from `t[j]` on
   * ranks below `x` and `t[j - 1]`, if there is one, does not.
   */
  lemma {:induction false} InsertAt<T>(x: T, t: seq<T>, j: int, key: T -> int)
    requires 0 <= j <= |t|
    requires forall m :: j <= m < |t| ==> key(t[m]) < key(x)
    requires j == 0 || key(t[j - 1]) >= key(x)
    ensures Insert(x, t, key) == t[..j] + [x] + t[j..]
    decreases |t|
  {
    if j == |t| {
      assert t[..j] == t && t[j..] == [];
    } else {
      var init := t[..|t| - 1];
      InsertAt(x, init, j, key);
      assert init[..j] == t[..j] && init[j..] == t[j..|t| - 1];
      InsertAtStep(x, t, j, key);
    }
  }

  /** A list that agrees with `t[..j] + [x] + t[j..]` at every index is that list. */
  lemma Reassembled<T>(s: seq<T>, t: seq<T>, j: int, x: T)
    requires 0 <= j <= |t| && |s| == |t| + 1
    requires forall m :: 0 <= m < j ==> s[m] == t[m]
    requires s[j] == x
    requires forall m :: j < m < |s| ==> s[m] == t[m - 1]
    ensures s == t[..j] + [x] + t[j..]
  {
    var r := t[..j] + [x] + t[j..];
    forall m | 0 <= m < |s| ensures s[m] == r[m] {
      if m < j {
        assert r[m] == t[m];
      } else if m > j {
        assert r[m] == t[m - 1];
      }
    }
  }

  /**
   * One pass of the insertion sort: `a[i]` is moved left past every element
   * of `a[..i]` that ranks below it, those shifting one place right, and
   * lands at `pos`, just behind the nearest element that does not rank
   * below it.
   */
  method InsertLast<T>(a: array<T>, i: int, key: T -> int) returns (pos: int)
    requires 0 <= i < a.Length
    modifies a
    ensures 0 <= pos <= i
    ensures a[..i + 1] == old(a[..i])[..pos] + [old(a[i])] + old(a[..i])[pos..]
    ensures forall m :: pos <= m < i ==> key(old(a[..i])[m]) < key(old(a[i]))
    ensures pos == 0 || key(old(a[..i])[pos - 1]) >= key(old(a[i]))
    ensures forall m :: i < m < a.Length ==> a[m] == old(a[m])
  {
    var x := a[i];
    ghost var t := a[..i];
    var j := i;
    while j > 0 && Compare(key, a[j - 1], x) > 0
      invariant 0 <= j <= i
      invariant forall m :: 0 <= m < j ==> a[m] == t[m]
      invariant forall m :: j < m <= i ==> a[m] == t[m - 1]
      invariant forall m :: i < m < a.Length ==> a[m] == old(a[m])
      invariant forall m :: j <= m < i ==> key(t[m]) < key(x)
    {
      a[j] := a[j - 1];
      j := j - 1;
    }
    a[j] := x;
    Reassembled(a[..i + 1], t, j, x);
    pos := j;
  }

  /**
   * One pass of the insertion sort extends the sorted prefix by one element:
   * placing `s[i]` where Insert puts it in SortDesc of `s[..i]` gives SortDesc
   * of `s[..i + 1]`.
   */
  lemma SortDescStep<T>(s: seq<T>, i: int, t: seq<T>, pos: int, next: seq<T>, key: T -> int)
    requires 0 <= i < |s| && t == SortDesc(s[..i], key)
    requires 0 <= pos <= i == |t|
    requires next == t[..pos] + [s[i]] + t[pos..]
    requires forall m :: pos <= m < i ==> key(t[m]) < key(s[i])
    requires pos == 0 || key(t[pos - 1]) >= key(s[i])
    ensures next == SortDesc(s[..i + 1], key)
  {
    var u := s[..i + 1];
    PrefixOfPrefix(s, i);
    assert u[..|u| - 1] == s[..i] && u[|u| - 1] == s[i];
    assert SortDesc(u, key) == Insert(s[i], t, key);
    InsertAt(s[i], t, pos, key);
  }

  /**
   * `a.sort((x, y) => key(y) - key(x))` on an array, as an insertion sort:
   * the array ends up holding SortDesc of its old contents.
   */
  method SortInPlace<T>(a: array<T>, key: T -> int)
    modifies a
    ensures a[..] == SortDesc(old(a[..]), key)
  {
    ghost var original := a[..];
    var i := 0;
    while i < a.Length
      invariant 0 <= i <= a.Length
      invariant a[..i] == SortDesc(original[..i], key)
      invariant forall m :: i <= m < a.Length ==> a[m] == original[m]
    {
      ghost var t := a[..i];
      var pos := InsertLast(a, i, key);
      SortDescStep(original, i, t, pos, a[..i + 1], key);
      i := i + 1;
    }
    assert a[..] == a[..a.Length] && original[..a.Length] == original;
  }
}
