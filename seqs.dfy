/** Sequence helpers shared by the browser and the server engines. */
module Seqs {

  function Min(a: int, b: int): int { if a <= b then a else b }

  function Max(a: int, b: int): int { if a >= b then a else b }

  /** The end index that JavaScript's `slice(0, stop)` and Python's `[:stop]`
      both use on a sequence of length n: a negative stop counts from the end. */
  function SliceStop(n: nat, stop: int): (k: nat)
    ensures k <= n
    ensures stop >= 0 ==> k == Min(stop, n)
    ensures stop < 0 ==> k == Max(0, n + stop)
  {
    if stop >= 0 then Min(stop, n) else Max(0, n + stop)
  }

  /** `s.slice(0, stop)` in JavaScript, `s[:stop]` in Python. */
  function Prefix<T>(s: seq<T>, stop: int): seq<T>
  {
    s[..SliceStop(|s|, stop)]
  }

  /** `s.slice(start, stop)` for non-negative bounds. */
  function Window<T>(s: seq<T>, start: nat, stop: nat): seq<T>
  {
    var b := Min(stop, |s|);
    var a := Min(start, b);
    s[a..b]
  }

  /** A window holds only elements of s. */
  lemma WindowWithin<T>(s: seq<T>, start: nat, stop: nat)
    ensures forall j :: 0 <= j < |Window(s, start, stop)| ==> Window(s, start, stop)[j] in s
  {
    var b := Min(stop, |s|);
    var a := Min(start, b);
    forall j | 0 <= j < |Window(s, start, stop)| ensures Window(s, start, stop)[j] in s {
      assert Window(s, start, stop)[j] == s[a + j];
    }
  }

  ghost predicate Distinct<T>(s: seq<T>)
  {
    forall i, j :: 0 <= i < j < |s| ==> s[i] != s[j]
  }

  /** Position of the first occurrence of x in s. */
  function IndexOf<T(==)>(s: seq<T>, x: T): (k: nat)
    requires x in s
    ensures k < |s| && s[k] == x
    ensures forall j :: 0 <= j < k ==> s[j] != x
  {
    if s[0] == x then 0 else 1 + IndexOf(s[1..], x)
  }

  /** s cut into the pieces before a, between a and b, and from b. */
  lemma SplitThree<T>(s: seq<T>, a: nat, b: nat)
    requires a <= b <= |s|
    ensures s == s[..a] + (s[a..b] + s[b..])
  {
  }

  /** `s.filter(p => p !== x)`, `[p for p in s if p != x]`. */
  function RemoveAll<T(==)>(s: seq<T>, x: T): (r: seq<T>)
    ensures x !in r
    ensures forall i :: 0 <= i < |r| ==> r[i] in s && r[i] != x
    ensures forall i :: 0 <= i < |s| && s[i] != x ==> s[i] in r
  {
    if s == [] then [] else (if s[0] == x then [] else [s[0]]) + RemoveAll(s[1..], x)
  }

  /** The filter keeps every other element as often as it occurs, and drops
      every copy of x. */
  lemma {:induction false} RemoveAllMultiset<T>(s: seq<T>, x: T)
    ensures multiset(RemoveAll(s, x)) == multiset(s)[x := 0]
  {
    if s != [] {
      assert s == [s[0]] + s[1..];
      RemoveAllMultiset(s[1..], x);
    }
  }

  /** The filter keeps the order of what it keeps: it works piece by piece. */
  lemma {:induction false} RemoveAllAppend<T>(a: seq<T>, b: seq<T>, x: T)
    ensures RemoveAll(a + b, x) == RemoveAll(a, x) + RemoveAll(b, x)
  {
    if a != [] {
      var t := a[1..];
      assert (a + b)[0] == a[0];
      assert (a + b)[1..] == t + b;
      RemoveAllAppend(t, b, x);
      if a[0] == x {
        assert RemoveAll(a + b, x) == RemoveAll(t + b, x);
        assert RemoveAll(a, x) == RemoveAll(t, x);
      } else {
        assert RemoveAll(a + b, x) == [a[0]] + RemoveAll(t + b, x);
        assert RemoveAll(a, x) == [a[0]] + RemoveAll(t, x);
      }
    } else {
      assert a + b == b;
    }
  }

  /** `list(range(n))`. */
  function Range(n: nat): (r: seq<nat>)
    ensures |r| == n
    ensures forall i :: 0 <= i < n ==> r[i] == i
  {
    seq(n, i => i)
  }

  lemma {:induction false} RemoveAllOfDistinct<T>(s: seq<T>, x: T)
    requires Distinct(s) && x in s
    ensures |RemoveAll(s, x)| == |s| - 1
    ensures Distinct(RemoveAll(s, x))
  {
    if s[0] == x {
      assert x !in s[1..];
      RemoveAllAbsent(s[1..], x);
    } else {
      RemoveAllOfDistinct(s[1..], x);
      assert s[0] !in RemoveAll(s[1..], x);
    }
  }

  /** The filter cuts a single copy of x out of its place and keeps what
      stands before and after it in order. */
  lemma RemoveAllCutsOut<T>(a: seq<T>, x: T, b: seq<T>)
    requires x !in a && x !in b
    ensures RemoveAll(a + [x] + b, x) == a + b
  {
    assert RemoveAll(a + [x] + b, x) == RemoveAll(a + [x], x) + RemoveAll(b, x) by {
      RemoveAllAppend(a + [x], b, x);
    }
    assert RemoveAll(a + [x], x) == a by {
      RemoveAllAppend(a, [x], x);
      RemoveAllAbsent(a, x);
      assert RemoveAll([x], x) == [];
    }
    assert RemoveAll(b, x) == b by {
      RemoveAllAbsent(b, x);
    }
  }

  /** Among distinct elements, x stands alone at its index. */
  lemma DistinctAround<T>(s: seq<T>, x: T)
    requires Distinct(s) && x in s
    ensures var k := IndexOf(s, x); s == s[..k] + [x] + s[k + 1..] && x !in s[..k] && x !in s[k + 1..]
  {
    var k := IndexOf(s, x);
    assert s == s[..k] + [x] + s[k + 1..];
    var rest := s[k + 1..];
    forall j | 0 <= j < |rest| ensures rest[j] != x {
      assert rest[j] == s[k + 1 + j];
    }
  }

  /** Among distinct phrases the filter removes the key from its index and
      keeps every other phrase in its order. */
  lemma RemoveAllOfDistinctShape<T>(s: seq<T>, x: T)
    requires Distinct(s) && x in s
    ensures RemoveAll(s, x) == s[..IndexOf(s, x)] + s[IndexOf(s, x) + 1..]
  {
    var k := IndexOf(s, x);
    DistinctAround(s, x);
    RemoveAllCutsOut(s[..k], x, s[k + 1..]);
  }

  lemma {:induction false} RemoveAllAbsent<T>(s: seq<T>, x: T)
    requires x !in s
    ensures RemoveAll(s, x) == s
  {
    if s != [] {
      assert x !in s[1..];
      RemoveAllAbsent(s[1..], x);
    }
  }

  /** A distinct sequence has as many elements as the set of its elements. */
  lemma {:induction false} DistinctCardinality<T>(s: seq<T>)
    requires Distinct(s)
    ensures |set x | x in s| == |s|
  {
    if s != [] {
      var t := s[..|s| - 1];
      var last := s[|s| - 1];
      assert s == t + [last];
      DistinctCardinality(t);
      assert last !in t;
      assert (set x | x in s) == (set x | x in t) + {last};
    }
  }
}
