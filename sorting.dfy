/** A stable sort by descending key: what `Array.prototype.sort` with the
    comparator `(a, b) => key(b) - key(a)` computes (the sort is stable since
    ECMAScript 2019), and what Python's `sorted(..., key=key, reverse=True)`
    computes (reversal keeps equal elements in their original order). It is
    written as an insertion sort, the simplest stable sort. */
module Sorting {
  import opened Seqs

  /** Number of leading elements of s whose key is at least key(x). */
  function InsertPos<T>(x: T, s: seq<T>, key: T -> real): (m: nat)
    ensures m <= |s|
    ensures forall i :: 0 <= i < m ==> key(s[i]) >= key(x)
    ensures m < |s| ==> key(s[m]) < key(x)
  {
    if s == [] || key(s[0]) < key(x) then 0 else 1 + InsertPos(x, s[1..], key)
  }

  /** x placed after every element whose key is at least its own. */
  function Insert<T>(x: T, s: seq<T>, key: T -> real): (r: seq<T>)
    ensures |r| == |s| + 1
  {
    if s == [] || key(s[0]) < key(x) then [x] + s
    else [s[0]] + Insert(x, s[1..], key)
  }

  /** Insert puts x at InsertPos and keeps the rest in place. */
  lemma {:induction false} InsertShape<T>(x: T, s: seq<T>, key: T -> real)
    ensures Insert(x, s, key) == s[..InsertPos(x, s, key)] + [x] + s[InsertPos(x, s, key)..]
  {
    if s != [] && key(s[0]) >= key(x) {
      InsertShape(x, s[1..], key);
      assert s == [s[0]] + s[1..];
    }
  }

  /** Inserting the elements of s one by one, from the first to the last. */
  function SortDesc<T>(s: seq<T>, key: T -> real): (r: seq<T>)
    ensures |r| == |s|
  {
    if s == [] then [] else Insert(s[|s| - 1], SortDesc(s[..|s| - 1], key), key)
  }

  ghost predicate Descending<T>(r: seq<T>, key: T -> real)
  {
    forall i, j :: 0 <= i < j < |r| ==> key(r[i]) >= key(r[j])
  }

  /** u comes before v when listing elements of s by descending key, equal
      keys in their order in s. */
  ghost predicate Before<T>(u: T, v: T, s: seq<T>, key: T -> real)
  {
    u in s && v in s
    && (key(u) > key(v) || (key(u) == key(v) && IndexOf(s, u) < IndexOf(s, v)))
  }

  /** r lists elements of s by descending key, equal keys in their order in s. */
  ghost predicate RankedBy<T>(r: seq<T>, s: seq<T>, key: T -> real)
  {
    forall i, j :: 0 <= i < j < |r| ==> Before(r[i], r[j], s, key)
  }

  /** The sort only rearranges. */
  lemma {:induction false} SortDescPermutes<T>(s: seq<T>, key: T -> real)
    ensures multiset(SortDesc(s, key)) == multiset(s)
  {
    if s != [] {
      var p := s[..|s| - 1];
      var x := s[|s| - 1];
      var r := SortDesc(p, key);
      assert SortDesc(s, key) == Insert(x, r, key);
      SortDescPermutes(p, key);
      InsertPermutes(x, r, key);
      assert s == p + [x];
    }
  }

  lemma InsertPermutes<T>(x: T, r: seq<T>, key: T -> real)
    ensures multiset(Insert(x, r, key)) == multiset(r) + multiset([x])
  {
    var m := InsertPos(x, r, key);
    var front, back := r[..m], r[m..];
    assert Insert(x, r, key) == front + [x] + back by {
      InsertShape(x, r, key);
    }
    assert multiset(r) == multiset(front) + multiset(back) by {
      assert r == front + back;
    }
    assert multiset(front + [x] + back) == multiset(front) + multiset([x]) + multiset(back);
  }

  lemma IndexOfPrefix<T>(p: seq<T>, x: T, y: T)
    requires y in p
    ensures IndexOf(p + [x], y) == IndexOf(p, y)
  {
    var k := IndexOf(p, y);
    assert (p + [x])[k] == y;
    IndexOfUnique(p + [x], y, k);
  }

  /** The first occurrence is the position where x occurs with none before it. */
  lemma IndexOfUnique<T>(s: seq<T>, x: T, k: nat)
    requires k < |s| && s[k] == x
    requires forall j :: 0 <= j < k ==> s[j] != x
    ensures IndexOf(s, x) == k
  {
    var i := IndexOf(s, x);
    assert !(i < k) && !(k < i);
  }

  /** Elements already in p keep their first position when x is appended. */
  lemma PrefixIndices<T>(p: seq<T>, x: T, r: seq<T>)
    requires multiset(r) == multiset(p)
    ensures forall i :: 0 <= i < |r| ==> r[i] in p && IndexOf(p + [x], r[i]) == IndexOf(p, r[i])
  {
    forall i | 0 <= i < |r| ensures r[i] in p && IndexOf(p + [x], r[i]) == IndexOf(p, r[i]) {
      assert r[i] in multiset(r);
      IndexOfPrefix(p, x, r[i]);
    }
  }

  /** Position k of a + [x] + b. */
  lemma SpliceAt<T>(a: seq<T>, x: T, b: seq<T>, k: nat)
    requires k <= |a| + |b|
    ensures (a + [x] + b)[k] == if k < |a| then a[k] else if k == |a| then x else b[k - |a| - 1]
  {
  }

  /** Appending x to a sequence without x: x is found at the end, every
      earlier element where it was. */
  lemma AppendFresh<T>(p: seq<T>, x: T)
    requires Distinct(p + [x])
    ensures x !in p && IndexOf(p + [x], x) == |p|
  {
    var s := p + [x];
    forall i | 0 <= i < |p| ensures p[i] != x {
      assert s[i] == p[i] && s[|p|] == x;
    }
    IndexOfUnique(s, x, |p|);
  }

  lemma InsertRanked<T>(p: seq<T>, x: T, r: seq<T>, key: T -> real)
    requires Distinct(p + [x])
    requires RankedBy(r, p, key) && multiset(r) == multiset(p)
    ensures RankedBy(Insert(x, r, key), p + [x], key)
  {
    var s := p + [x];
    var m := InsertPos(x, r, key);
    var q := Insert(x, r, key);
    InsertShape(x, r, key);
    AppendFresh(p, x);
    PrefixIndices(p, x, r);
    RankedExtend(p, x, r, key);
    forall i, j | 0 <= i < j < |q| ensures Before(q[i], q[j], s, key) {
      SpliceAt(r[..m], x, r[m..], i);
      SpliceAt(r[..m], x, r[m..], j);
      InsertPair(s, x, r, key, m, i, j);
    }
  }

  /** Appending x to p keeps a ranking of elements of p a ranking. */
  lemma RankedExtend<T>(p: seq<T>, x: T, r: seq<T>, key: T -> real)
    requires RankedBy(r, p, key)
    requires forall k :: 0 <= k < |r| ==> r[k] in p && IndexOf(p + [x], r[k]) == IndexOf(p, r[k])
    ensures RankedBy(r, p + [x], key)
  {
    forall i, j | 0 <= i < j < |r| ensures Before(r[i], r[j], p + [x], key) {
      assert Before(r[i], r[j], p, key);
    }
  }

  /** Position k of r with x put in at position m. */
  function At<T>(r: seq<T>, m: nat, x: T, k: nat): T
    requires m <= |r| && k <= |r|
  {
    if k < m then r[k] else if k == m then x else r[k - 1]
  }

  /** Two positions of r with x put in at m, before the first element
      whose key is below x's, where s ranks the elements of r before x. */
  lemma InsertPair<T>(s: seq<T>, x: T, r: seq<T>, key: T -> real, m: nat, i: nat, j: nat)
    requires RankedBy(r, s, key) && x in s
    requires forall k :: 0 <= k < |r| ==> r[k] in s && IndexOf(s, r[k]) < IndexOf(s, x)
    requires m <= |r|
    requires forall k :: 0 <= k < m ==> key(r[k]) >= key(x)
    requires m < |r| ==> key(r[m]) < key(x)
    requires i < j <= |r|
    ensures Before(At(r, m, x, i), At(r, m, x, j), s, key)
  {
    if i != m && j != m {
      var a := if i < m then i else i - 1;
      var b := if j < m then j else j - 1;
      assert At(r, m, x, i) == r[a] && At(r, m, x, j) == r[b];
      assert Before(r[a], r[b], s, key);
    } else if j == m {
      assert At(r, m, x, i) == r[i] && At(r, m, x, j) == x;
      assert key(r[i]) >= key(x) && IndexOf(s, r[i]) < IndexOf(s, x);
    } else {
      assert At(r, m, x, i) == x && At(r, m, x, j) == r[j - 1];
      assert m == j - 1 || Before(r[m], r[j - 1], s, key);
      assert key(x) > key(r[j - 1]);
    }
  }

  /** The sort orders by descending key and keeps equal keys in input order. */
  lemma {:induction false} SortDescRanked<T>(s: seq<T>, key: T -> real)
    requires Distinct(s)
    ensures RankedBy(SortDesc(s, key), s, key)
  {
    if s != [] {
      var p := s[..|s| - 1];
      var x := s[|s| - 1];
      assert s == p + [x];
      assert Distinct(p) by {
        forall i, j | 0 <= i < j < |p| ensures p[i] != p[j] {
          assert p[i] == s[i] && p[j] == s[j];
        }
      }
      SortDescRanked(p, key);
      SortDescPermutes(p, key);
      InsertRanked(p, x, SortDesc(p, key), key);
    }
  }

  /** A ranked sequence is descending. */
  lemma RankedDescending<T>(r: seq<T>, s: seq<T>, key: T -> real)
    requires RankedBy(r, s, key)
    ensures Descending(r, key)
  {
  }

  /** A ranking never lists an element twice. */
  lemma RankedDistinct<T>(r: seq<T>, s: seq<T>, key: T -> real)
    requires RankedBy(r, s, key)
    ensures Distinct(r)
  {
    forall i, j | 0 <= i < j < |r| ensures r[i] != r[j] {
      assert Before(r[i], r[j], s, key);
    }
  }
}
