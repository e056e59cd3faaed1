/** `Array.prototype.sort` with a comparator `(a, b) => key(b) - key(a)`:
    a stable sort into non-increasing key order (ECMAScript requires the sort
    to be stable). `Sort` is its specification, `InsertionSort` sorts an
    array in place. */
module StableSort {
  import opened Seqs

  ghost predicate SortedDesc<T>(s: seq<T>, key: T -> int) {
    forall i, j :: 0 <= i < j < |s| ==> key(s[i]) >= key(s[j])
  }

  /** The elements whose key is `k`, in their order. */
  function WithKey<T>(s: seq<T>, key: T -> int, k: int): seq<T> {
    Filter(s, x => key(x) == k)
  }

  /** Places `x` behind every element of `t` whose key is at least `x`'s. */
  function Insert<T>(t: seq<T>, x: T, key: T -> int): (r: seq<T>)
    ensures |r| == |t| + 1
  {
    if t == [] then [x]
    else if key(t[0]) >= key(x) then [t[0]] + Insert(t[1..], x, key)
    else [x] + t
  }

  /** Insertion sort from the front: each element is inserted behind the
      equal-keyed elements that came before it. */
  function Sort<T>(s: seq<T>, key: T -> int): (r: seq<T>)
    ensures |r| == |s|
  {
    if s == [] then [] else Insert(Sort(s[..|s| - 1], key), s[|s| - 1], key)
  }

  lemma {:induction false} InsertSorted<T>(t: seq<T>, x: T, key: T -> int)
    requires SortedDesc(t, key)
    ensures SortedDesc(Insert(t, x, key), key)
    ensures Insert(t, x, key)[0] == if t != [] && key(t[0]) >= key(x) then t[0] else x
  {
    if t != [] && key(t[0]) >= key(x) {
      InsertSorted(t[1..], x, key);
    }
  }

  lemma {:induction false} InsertMultiset<T>(t: seq<T>, x: T, key: T -> int)
    ensures multiset(Insert(t, x, key)) == multiset(t) + multiset{x}
  {
    if t != [] && key(t[0]) >= key(x) {
      InsertMultiset(t[1..], x, key);
      assert t == [t[0]] + t[1..];
    }
  }

  /** No element with key `k` follows any element `x` is placed in front of. */
  lemma {:induction false} NoneWithKey<T>(t: seq<T>, key: T -> int, k: int)
    requires forall i :: 0 <= i < |t| ==> key(t[i]) != k
    ensures WithKey(t, key, k) == []
  {
    FilterEmpty(t, x => key(x) == k);
  }

  lemma {:induction false} InsertWithKey<T>(t: seq<T>, x: T, key: T -> int, k: int)
    requires SortedDesc(t, key)
    ensures WithKey(Insert(t, x, key), key, k)
         == WithKey(t, key, k) + (if key(x) == k then [x] else [])
  {
    var f := y => key(y) == k;
    if t == [] {
    } else if key(t[0]) >= key(x) {
      InsertWithKey(t[1..], x, key, k);
      FilterAppend([t[0]], Insert(t[1..], x, key), f);
      FilterAppend([t[0]], t[1..], f);
      assert t == [t[0]] + t[1..];
    } else {
      NoneWithKey(t, key, key(x));
      FilterAppend([x], t, f);
    }
  }

  /** Inserting at position `j` of a sorted sequence is what the inner loop of
      `InsertionSort` does. */
  lemma {:induction false} InsertAt<T>(t: seq<T>, x: T, key: T -> int, j: nat)
    requires SortedDesc(t, key) && j <= |t|
    requires j > 0 ==> key(t[j - 1]) >= key(x)
    requires forall m :: j <= m < |t| ==> key(t[m]) < key(x)
    ensures Insert(t, x, key) == t[..j] + [x] + t[j..]
  {
    if j > 0 {
      InsertAt(t[1..], x, key, j - 1);
      assert t[1..][..j - 1] == t[1..j];
      assert t[1..][j - 1..] == t[j..];
      assert t[..j] == [t[0]] + t[1..j];
    }
  }

  /** A sequence that agrees with `t` before `j`, holds `x` at `j` and `t`
      shifted up by one after it, is `t` with `x` spliced in at `j`. */
  lemma SplicedAt<T>(t: seq<T>, x: T, j: nat, b: seq<T>)
    requires j <= |t| < |b|
    requires forall m :: 0 <= m < j ==> b[m] == t[m]
    requires b[j] == x
    requires forall m :: j < m <= |t| ==> b[m] == t[m - 1]
    ensures b[..|t| + 1] == t[..j] + [x] + t[j..]
  {
    assert b[..j] == t[..j];
    assert b[j + 1..|t| + 1] == t[j..];
    assert b[..|t| + 1] == b[..j] + [x] + b[j + 1..|t| + 1];
  }

  /** What the inner loop of `ShiftDown` leaves behind is the insertion. */
  lemma InsertedAt<T>(t: seq<T>, x: T, key: T -> int, j: nat, b: seq<T>)
    requires SortedDesc(t, key) && j <= |t| < |b|
    requires j > 0 ==> key(t[j - 1]) >= key(x)
    requires forall m :: j <= m < |t| ==> key(t[m]) < key(x)
    requires forall m :: 0 <= m < j ==> b[m] == t[m]
    requires b[j] == x
    requires forall m :: j < m <= |t| ==> b[m] == t[m - 1]
    ensures b[..|t| + 1] == Insert(t, x, key)
  {
    SplicedAt(t, x, j, b);
    InsertAt(t, x, key, j);
  }

  /** An element no larger than everything before it goes at the end. */
  lemma {:induction false} InsertLast<T>(t: seq<T>, x: T, key: T -> int)
    requires forall i :: 0 <= i < |t| ==> key(t[i]) >= key(x)
    ensures Insert(t, x, key) == t + [x]
  {
    if t != [] {
      InsertLast(t[1..], x, key);
      assert t == [t[0]] + t[1..];
    }
  }

  lemma {:induction false} SortIsSorted<T>(s: seq<T>, key: T -> int)
    ensures SortedDesc(Sort(s, key), key)
  {
    if s != [] {
      SortIsSorted(s[..|s| - 1], key);
      InsertSorted(Sort(s[..|s| - 1], key), s[|s| - 1], key);
    }
  }

  lemma {:induction false} SortIsPermutation<T>(s: seq<T>, key: T -> int)
    ensures multiset(Sort(s, key)) == multiset(s)
  {
    if s != [] {
      SortIsPermutation(s[..|s| - 1], key);
      InsertMultiset(Sort(s[..|s| - 1], key), s[|s| - 1], key);
      assert s == s[..|s| - 1] + [s[|s| - 1]];
    }
  }

  /** Stability: the elements sharing any one key keep their relative order. */
  lemma {:induction false} SortIsStable<T>(s: seq<T>, key: T -> int, k: int)
    ensures WithKey(Sort(s, key), key, k) == WithKey(s, key, k)
  {
    if s != [] {
      var front, x := s[..|s| - 1], s[|s| - 1];
      SortIsStable(front, key, k);
      SortIsSorted(front, key);
      InsertWithKey(Sort(front, key), x, key, k);
      assert s == front + [x];
      FilterAppend(front, [x], y => key(y) == k);
    }
  }

  lemma HeadKeyPresent<T>(c: seq<T>, key: T -> int)
    ensures c != [] ==> WithKey(c, key, key(c[0])) != []
  {
  }

  /** Two sorted sequences that agree on the elements of every key, in order,
      are equal: any stable sort, whatever its algorithm, agrees with `Sort`. */
  lemma {:induction false} SortedStableUnique<T>(a: seq<T>, b: seq<T>, key: T -> int)
    requires SortedDesc(a, key) && SortedDesc(b, key)
    requires forall k :: WithKey(a, key, k) == WithKey(b, key, k)
    ensures a == b
    decreases |a|
  {
    if a == [] || b == [] {
      var c := if a == [] then b else a;
      HeadKeyPresent(c, key);
    } else {
      var ka, kb := key(a[0]), key(b[0]);
      FilterMembers(a, x => key(x) == kb);
      FilterMembers(b, x => key(x) == ka);
      assert WithKey(a, key, ka) != [] && WithKey(b, key, kb) != [];
      assert ka == kb;
      assert WithKey(a, key, ka) == [a[0]] + WithKey(a[1..], key, ka);
      assert WithKey(b, key, ka) == [b[0]] + WithKey(b[1..], key, ka);
      assert WithKey(a, key, ka) == WithKey(b, key, ka);
      assert a[0] == WithKey(a, key, ka)[0] == b[0];
      forall k ensures WithKey(a[1..], key, k) == WithKey(b[1..], key, k) {
        var head := if ka == k then [a[0]] else [];
        var same := WithKey(a, key, k);
        assert same == WithKey(b, key, k);
        assert same == head + WithKey(a[1..], key, k);
        assert same == head + WithKey(b[1..], key, k);
        assert same[|head|..] == WithKey(a[1..], key, k);
      }
      SortedStableUnique(a[1..], b[1..], key);
      assert a == [a[0]] + a[1..] && b == [b[0]] + b[1..];
    }
  }

  lemma SortIsTheStableSort<T>(s: seq<T>, r: seq<T>, key: T -> int)
    requires SortedDesc(r, key)
    requires forall k :: WithKey(r, key, k) == WithKey(s, key, k)
    ensures r == Sort(s, key)
  {
    SortIsSorted(s, key);
    forall k ensures WithKey(r, key, k) == WithKey(Sort(s, key), key, k) {
      SortIsStable(s, key, k);
    }
    SortedStableUnique(r, Sort(s, key), key);
  }

  /** Any prefix of the sorted sequence, such as what `slice(0, n)` keeps,
      holds the earliest input elements of each key, in their input order. */
  lemma SortedPrefixKeepsOrder<T>(s: seq<T>, key: T -> int, r: seq<T>, k: int)
    requires r <= Sort(s, key)
    ensures WithKey(r, key, k) <= WithKey(s, key, k)
    ensures IsSubsequence(WithKey(r, key, k), s)
  {
    var f := x => key(x) == k;
    FilterPrefix(r, Sort(s, key), f);
    SortIsStable(s, key, k);
    PrefixIsSubsequence(WithKey(r, key, k), WithKey(s, key, k));
    FilterIsSubsequence(s, f);
    SubsequenceTransitive(WithKey(r, key, k), WithKey(s, key, k), s);
  }

  /** A prefix of a sorted sequence holds its largest keys: nothing left
      out has a larger key than anything kept. */
  lemma SortedPrefixHoldsLargest<T>(s: seq<T>, key: T -> int, m: nat)
    requires SortedDesc(s, key) && m <= |s|
    ensures forall x, y :: x in multiset(s) - multiset(s[..m]) && y in s[..m] ==> key(x) <= key(y)
  {
    var rest := s[m..];
    assert s == s[..m] + rest;
    assert multiset(s) - multiset(s[..m]) == multiset(rest);
    forall x, y | x in multiset(s) - multiset(s[..m]) && y in s[..m] ensures key(x) <= key(y) {
      var j :| 0 <= j < |rest| && rest[j] == x;
      var i :| 0 <= i < m && s[..m][i] == y;
      assert s[i] == y && s[m + j] == x;
    }
  }

  /** Sorting a sorted sequence changes nothing. */
  lemma {:induction false} SortOfSorted<T>(s: seq<T>, key: T -> int)
    requires SortedDesc(s, key)
    ensures Sort(s, key) == s
  {
    if s != [] {
      var front, x := s[..|s| - 1], s[|s| - 1];
      SortOfSorted(front, key);
      InsertLast(front, x, key);
      assert s == front + [x];
    }
  }

  /** Rewriting elements without touching their keys commutes with sorting. */
  lemma {:induction false} InsertMap<T>(t: seq<T>, x: T, key: T -> int, f: T -> T)
    requires forall y :: key(f(y)) == key(y)
    ensures Map(Insert(t, x, key), f) == Insert(Map(t, f), f(x), key)
  {
    if t == [] {
      assert Map([x], f) == [f(x)];
    } else {
      assert t == [t[0]] + t[1..];
      MapCons(t[0], t[1..], f);
      var mt := Map(t, f);
      assert mt[0] == f(t[0]) && mt[1..] == Map(t[1..], f);
      if key(t[0]) >= key(x) {
        InsertMap(t[1..], x, key, f);
        MapCons(t[0], Insert(t[1..], x, key), f);
      } else {
        MapCons(x, t, f);
      }
    }
  }

  lemma {:induction false} SortMap<T>(s: seq<T>, key: T -> int, f: T -> T)
    requires forall y :: key(f(y)) == key(y)
    ensures Map(Sort(s, key), f) == Sort(Map(s, f), key)
  {
    if s != [] {
      var front, x := s[..|s| - 1], s[|s| - 1];
      SortMap(front, key, f);
      InsertMap(Sort(front, key), x, key, f);
      assert Map(s, f)[..|s| - 1] == Map(front, f);
    }
  }

  /** Sorts `a` in place: each element is shifted down past the elements with
      a strictly smaller key, so equal keys never swap. */
  method InsertionSort<T>(a: array<T>, key: T -> int)
    modifies a
    ensures a[..] == Sort(old(a[..]), key)
  {
    var i := 0;
    while i < a.Length
      invariant 0 <= i <= a.Length
      invariant a[..i] == Sort(old(a[..])[..i], key)
      invariant a[i..] == old(a[..])[i..]
    {
      SortIsSorted(old(a[..])[..i], key);
      assert a[i + 1..] == a[i..][1..];
      ShiftDown(a, i, key);
      assert old(a[..])[..i + 1][..i] == old(a[..])[..i];
      i := i + 1;
    }
    assert a[..] == a[..i] && old(a[..]) == old(a[..])[..i];
  }

  /** One pass of the outer loop: moves `a[i]` down into the sorted prefix `a[..i]`. */
  method ShiftDown<T>(a: array<T>, i: nat, key: T -> int)
    requires i < a.Length && SortedDesc(a[..i], key)
    modifies a
    ensures a[..i + 1] == Insert(old(a[..i]), old(a[i]), key)
    ensures forall m :: i < m < a.Length ==> a[m] == old(a[m])
  {
    var x := a[i];
    ghost var t := a[..i];
    var j := i;
    while j > 0 && key(a[j - 1]) < key(x)
      invariant 0 <= j <= i
      invariant forall m :: 0 <= m < j ==> a[m] == t[m]
      invariant forall m :: j < m <= i ==> a[m] == t[m - 1]
      invariant forall m :: i < m < a.Length ==> a[m] == old(a[m])
      invariant forall m :: j <= m < i ==> key(t[m]) < key(x)
    {
      a[j] := a[j - 1];
      j := j - 1;
    }
    a[j] := x;
    InsertedAt(t, x, key, j, a[..]);
  }
}
