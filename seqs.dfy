/** The array operations the catalog queries are built from: JavaScript's
    `filter`, `map`, `slice(0, end)`, and de-duplication through a `Set`. */
module Seqs {

  /** `s.filter(f)`: the elements satisfying `f`, in their order. */
  function Filter<T>(s: seq<T>, f: T -> bool): (r: seq<T>)
    ensures |r| <= |s|
  {
    if s == [] then [] else (if f(s[0]) then [s[0]] else []) + Filter(s[1..], f)
  }

  /** `s.map(f)`. */
  function Map<T, U>(s: seq<T>, f: T -> U): seq<U> {
    seq(|s|, i requires 0 <= i < |s| => f(s[i]))
  }

  lemma MapCons<T, U>(x: T, s: seq<T>, f: T -> U)
    ensures Map([x] + s, f) == [f(x)] + Map(s, f)
  {
  }

  /** `s.slice(0, end)`: a negative `end` counts back from the length. */
  function SliceTo<T>(s: seq<T>, end: int): (r: seq<T>)
    ensures r <= s
    ensures 0 <= end ==> |r| == if end < |s| then end else |s|
    ensures end < 0 ==> |r| == if |s| + end < 0 then 0 else |s| + end
  {
    var stop := if end < 0 then (if |s| + end < 0 then 0 else |s| + end)
                else (if end < |s| then end else |s|);
    s[..stop]
  }

  /** `r` is `s` with some elements deleted and the rest in their order. */
  ghost predicate IsSubsequence<T>(r: seq<T>, s: seq<T>)
    decreases |s|
  {
    r == [] ||
    (s != [] && ((r[0] == s[0] && IsSubsequence(r[1..], s[1..])) || IsSubsequence(r, s[1..])))
  }

  ghost predicate NoDuplicates<T>(s: seq<T>) {
    forall i, j :: 0 <= i < j < |s| ==> s[i] != s[j]
  }

  /** The position where `x` first occurs in `s`. */
  function FirstIndex<T(==)>(s: seq<T>, x: T): (i: nat)
    requires x in s
    ensures i < |s| && s[i] == x
    ensures forall j :: 0 <= j < i ==> s[j] != x
  {
    if s[0] == x then 0 else 1 + FirstIndex(s[1..], x)
  }

  /** `[...new Set(s)]`: a Set keeps the order in which values were first added. */
  function Dedup<T(==)>(s: seq<T>): (r: seq<T>)
    ensures |r| <= |s|
  {
    if s == [] then []
    else
      var r := Dedup(s[..|s| - 1]);
      if s[|s| - 1] in r then r else r + [s[|s| - 1]]
  }

  lemma {:induction false} FilterAppend<T>(a: seq<T>, b: seq<T>, f: T -> bool)
    ensures Filter(a + b, f) == Filter(a, f) + Filter(b, f)
  {
    if a == [] {
      assert a + b == b;
    } else {
      var head := if f(a[0]) then [a[0]] else [];
      assert (a + b)[0] == a[0] && (a + b)[1..] == a[1..] + b;
      FilterAppend(a[1..], b, f);
      assert Filter(a + b, f) == head + Filter(a[1..] + b, f);
      assert Filter(a, f) == head + Filter(a[1..], f);
    }
  }

  lemma {:induction false} FilterMembers<T>(s: seq<T>, f: T -> bool)
    ensures forall x :: x in Filter(s, f) <==> x in s && f(x)
  {
    if s != [] {
      FilterMembers(s[1..], f);
      assert s == [s[0]] + s[1..];
    }
  }

  lemma {:induction false} FilterEmpty<T>(s: seq<T>, f: T -> bool)
    ensures Filter(s, f) == [] <==> forall i :: 0 <= i < |s| ==> !f(s[i])
  {
    if s != [] {
      FilterEmpty(s[1..], f);
      assert forall i :: 1 <= i < |s| ==> s[i] == s[1..][i - 1];
    }
  }

  /** How often `x` occurs in the filtered sequence: as often as in `s` when
      it satisfies `f`, never otherwise. */
  lemma {:induction false} FilterMultiset<T>(s: seq<T>, f: T -> bool)
    ensures forall x :: multiset(Filter(s, f))[x] == if f(x) then multiset(s)[x] else 0
  {
    if s != [] {
      FilterMultiset(s[1..], f);
      assert s == [s[0]] + s[1..];
    }
  }

  /** Tagging each element with `g`, filtering the tagged values and taking
      the tags off again keeps each element as often as it occurs, exactly
      when its tagged value passes the filter. */
  lemma {:induction false} FilterMapMultiset<T, U>(s: seq<T>, g: T -> U, keep: U -> bool, back: U -> T)
    requires forall x :: back(g(x)) == x
    ensures forall x :: multiset(Map(Filter(Map(s, g), keep), back))[x] ==
              if keep(g(x)) then multiset(s)[x] else 0
  {
    if s != [] {
      var tail := Filter(Map(s[1..], g), keep);
      FilterMapMultiset(s[1..], g, keep, back);
      assert s == [s[0]] + s[1..];
      MapCons(s[0], s[1..], g);
      assert Map(s, g)[1..] == Map(s[1..], g);
      if keep(g(s[0])) {
        assert Filter(Map(s, g), keep) == [g(s[0])] + tail;
        MapCons(g(s[0]), tail, back);
      } else {
        assert Filter(Map(s, g), keep) == tail;
      }
    }
  }

  lemma {:induction false} FilterIsSubsequence<T>(s: seq<T>, f: T -> bool)
    ensures IsSubsequence(Filter(s, f), s)
  {
    if s != [] {
      FilterIsSubsequence(s[1..], f);
      var r := Filter(s, f);
      if f(s[0]) {
        assert r == [s[0]] + Filter(s[1..], f);
        assert r[0] == s[0] && r[1..] == Filter(s[1..], f);
      } else {
        assert r == Filter(s[1..], f);
      }
    }
  }

  /** Filtering a prefix gives a prefix of the filtered whole. */
  lemma FilterPrefix<T>(a: seq<T>, b: seq<T>, f: T -> bool)
    requires a <= b
    ensures Filter(a, f) <= Filter(b, f)
  {
    assert b == a + b[|a|..];
    FilterAppend(a, b[|a|..], f);
  }

  lemma {:induction false} PrefixIsSubsequence<T>(a: seq<T>, b: seq<T>)
    requires a <= b
    ensures IsSubsequence(a, b)
  {
    if a != [] {
      PrefixIsSubsequence(a[1..], b[1..]);
    }
  }

  lemma {:induction false} SubsequenceTransitive<T>(a: seq<T>, b: seq<T>, c: seq<T>)
    requires IsSubsequence(a, b) && IsSubsequence(b, c)
    ensures IsSubsequence(a, c)
    decreases |c|
  {
    if a != [] {
      if b[0] == c[0] && IsSubsequence(b[1..], c[1..]) {
        if a[0] == b[0] && IsSubsequence(a[1..], b[1..]) {
          SubsequenceTransitive(a[1..], b[1..], c[1..]);
        } else {
          SubsequenceTransitive(a, b[1..], c[1..]);
        }
      } else {
        SubsequenceTransitive(a, b, c[1..]);
      }
    }
  }

  lemma {:induction false} SubsequenceMap<T, U>(a: seq<T>, b: seq<T>, f: T -> U)
    requires IsSubsequence(a, b)
    ensures IsSubsequence(Map(a, f), Map(b, f))
    decreases |b|
  {
    if a != [] {
      assert Map(b, f)[1..] == Map(b[1..], f);
      if a[0] == b[0] && IsSubsequence(a[1..], b[1..]) {
        SubsequenceMap(a[1..], b[1..], f);
        assert Map(a, f)[1..] == Map(a[1..], f);
      } else {
        SubsequenceMap(a, b[1..], f);
      }
    }
  }

  /** Appending to the sequence does not move `x`'s first occurrence. */
  lemma FirstIndexOfPrefix<T>(s: seq<T>, t: seq<T>, x: T)
    requires x in s
    ensures x in s + t && FirstIndex(s + t, x) == FirstIndex(s, x)
  {
    var i, k := FirstIndex(s + t, x), FirstIndex(s, x);
    assert (s + t)[k] == x;
  }

  /** The de-duplicated sequence lists every value of `s` exactly once, in the
      order of first occurrence. */
  lemma {:induction false} DedupSpec<T>(s: seq<T>)
    ensures NoDuplicates(Dedup(s))
    ensures forall x :: x in Dedup(s) <==> x in s
    ensures forall i, j :: 0 <= i < j < |Dedup(s)| ==> FirstIndex(s, Dedup(s)[i]) < FirstIndex(s, Dedup(s)[j])
  {
    if s != [] {
      var front, y := s[..|s| - 1], s[|s| - 1];
      assert s == front + [y];
      DedupSpec(front);
      var r := Dedup(front);
      forall x | x in front
        ensures FirstIndex(s, x) == FirstIndex(front, x) < |front|
      {
        FirstIndexOfPrefix(front, [y], x);
      }
      if y !in r {
        assert FirstIndex(s, y) == |front|;
      }
    }
  }
}
