/** What the two cloze-quiz generators share: the question record, the
    search for the first sentence that mentions the key, the fallback stem,
    and the case-insensitive blanking of the key (first occurrence in
    MyWebsite/script.js, every occurrence in MyWebsite/server/app.py). */
module Quiz {
  import opened Text

  /** `{ id, question, options, answer }`. */
  datatype Question = Question(id: string, question: string, options: seq<string>, answer: string)

  /** What replaces the key in the stem. */
  const Blank: string := "_____"

  /** The stem used when no sentence mentions the key. */
  function Template(key: string): string
  {
    "What best describes: " + key + "?"
  }

  /** s holds key at p when both are compared in lower case. */
  predicate MatchesAt(s: string, key: string, p: nat)
  {
    MatchAt(Lower(s), key, p)
  }

  /** Index of the first sentence whose lower-cased form contains key, or
      |sentences| when there is none: `sentences.find(...)` and
      `next((st for st in sentences if key in st.lower()), None)`. */
  function FirstMention(sentences: seq<string>, key: string): (k: nat)
    ensures k <= |sentences|
    ensures k < |sentences| ==> Contains(Lower(sentences[k]), key)
    ensures forall j :: 0 <= j < k ==> !Contains(Lower(sentences[j]), key)
  {
    if sentences == [] then 0
    else if Contains(Lower(sentences[0]), key) then 0
    else 1 + FirstMention(sentences[1..], key)
  }

  /** `s.replace(new RegExp(key, 'i'), '_____')`: the first case-insensitive
      occurrence of key becomes the blank. */
  function ReplaceFirst(s: string, key: string): (r: string)
    ensures r == s || (|key| <= |s| && |r| == |s| - |key| + |Blank|)
  {
    match FirstMatch(Lower(s), key, 0)
    case None => s
    case Some(p) => s[..p] + Blank + s[p + |key|..]
  }

  /** `re.compile(re.escape(key), re.IGNORECASE).sub('_____', s)`: every
      occurrence, scanning left to right without overlap, becomes the blank. */
  function ReplaceAll(s: string, key: string): (r: string)
    requires key != []
    ensures r == [] <==> s == []
    decreases |s|
  {
    if |s| < |key| then s
    else if Lower(s[..|key|]) == key then Blank + ReplaceAll(s[|key|..], key)
    else [s[0]] + ReplaceAll(s[1..], key)
  }

  // ---------------------------------------------------------------------------
  // Blanking the first occurrence.

  /** The browser's stem is the sentence with its first occurrence of the key
      (in lower case) cut out and the blank put in its place. */
  lemma ReplaceFirstAt(s: string, key: string, p: nat)
    requires MatchesAt(s, key, p)
    requires forall q :: 0 <= q < p ==> !MatchesAt(s, key, q)
    ensures p + |key| <= |s|
    ensures ReplaceFirst(s, key) == s[..p] + Blank + s[p + |key|..]
  {
    var hay := Lower(s);
    var r := FirstMatch(hay, key, 0);
    assert MatchAt(hay, key, p);
    assert r.Some? && r.value <= p;
    assert MatchesAt(s, key, r.value);
    assert r.value == p;
  }

  /** Without an occurrence the sentence is left as it is. */
  lemma ReplaceFirstNone(s: string, key: string)
    requires forall q :: 0 <= q ==> !MatchesAt(s, key, q)
    ensures ReplaceFirst(s, key) == s
  {
    var r := FirstMatch(Lower(s), key, 0);
    if r.Some? {
      assert MatchesAt(s, key, r.value);
    }
  }

  // ---------------------------------------------------------------------------
  // Blanking every occurrence.

  /** Lower-casing a slice is slicing the lower-cased text. */
  lemma LowerSlice(s: string, a: nat, b: nat)
    requires a <= b <= |s|
    ensures Lower(s[a..b]) == Lower(s)[a..b]
  {
  }

  /** Without an occurrence the sentence is left as it is. */
  lemma {:induction false} ReplaceAllNone(s: string, key: string)
    requires key != []
    requires forall q :: 0 <= q ==> !MatchesAt(s, key, q)
    ensures ReplaceAll(s, key) == s
    decreases |s|
  {
    if |s| >= |key| {
      assert Lower(s[..|key|]) != key by {
        LowerSlice(s, 0, |key|);
        assert !MatchesAt(s, key, 0);
      }
      forall q | 0 <= q ensures !MatchesAt(s[1..], key, q) {
        NoMatchInTail(s, key, q);
      }
      ReplaceAllNone(s[1..], key);
      assert s == [s[0]] + s[1..];
    }
  }

  /** A key that occurs nowhere in s occurs nowhere in its tail. */
  lemma NoMatchInTail(s: string, key: string, q: nat)
    requires s != []
    requires !MatchesAt(s, key, q + 1)
    ensures !MatchesAt(s[1..], key, q)
  {
    if q + |key| <= |s| - 1 {
      LowerSlice(s, q + 1, q + 1 + |key|);
      assert s[1..][q..q + |key|] == s[q + 1..q + 1 + |key|];
      LowerSlice(s[1..], q, q + |key|);
    }
  }

  /** The blanked sentence starts with the blank or with the sentence's own
      first character; a stretch of it free of `_` is a stretch of the input. */
  lemma {:induction false} ReplaceAllPrefix(s: string, key: string, m: nat)
    requires key != []
    requires m <= |ReplaceAll(s, key)|
    requires forall i :: 0 <= i < m ==> ReplaceAll(s, key)[i] != '_'
    ensures m <= |s| && ReplaceAll(s, key)[..m] == s[..m]
    decreases |s|
  {
    var r := ReplaceAll(s, key);
    BlankFirst(s, key);
    if m > 0 && |s| >= |key| {
      if Lower(s[..|key|]) != key {
        var t := ReplaceAll(s[1..], key);
        assert r == [s[0]] + t;
        forall i | 0 <= i < m - 1 ensures t[i] != '_' {
          assert t[i] == r[i + 1];
        }
        ReplaceAllPrefix(s[1..], key, m - 1);
        assert r[..m] == [s[0]] + ReplaceAll(s[1..], key)[..m - 1];
        assert s[..m] == [s[0]] + s[1..][..m - 1];
      }
    }
  }

  /** Text that starts with the key is blanked from its first character. */
  lemma BlankFirst(s: string, key: string)
    requires key != []
    ensures |s| >= |key| && Lower(s[..|key|]) == key ==> ReplaceAll(s, key)[0] == '_'
  {
  }

  /** No occurrence in r[d..] means none in r from d on. */
  lemma NoMatchAfter(r: string, d: nat, key: string)
    requires d <= |r|
    requires forall q :: 0 <= q ==> !MatchesAt(r[d..], key, q)
    ensures forall q :: d <= q ==> !MatchesAt(r, key, q)
  {
    forall q | d <= q ensures !MatchesAt(r, key, q) {
      if q + |key| <= |r| {
        assert !MatchesAt(r[d..], key, q - d);
        LowerSlice(r, q, q + |key|);
        LowerSlice(r[d..], q - d, q - d + |key|);
        assert r[d..][q - d..q - d + |key|] == r[q..q + |key|];
      }
    }
  }

  /** A key without `_` does not occur where the blank is. */
  lemma BlankNoMatch(t: string, key: string)
    requires key != [] && forall i :: 0 <= i < |key| ==> key[i] != '_'
    ensures forall q :: 0 <= q < |Blank| ==> !MatchesAt(Blank + t, key, q)
  {
    var r := Blank + t;
    forall q | 0 <= q < |Blank| ensures !MatchesAt(r, key, q) {
      assert Lower(r)[q] == '_' != key[0];
    }
  }

  /** No case-insensitive occurrence of the key survives the server's
      blanking (the keys are ranked words, which never contain `_`). */
  lemma {:induction false} ReplaceAllRemovesKey(s: string, key: string)
    requires key != []
    requires forall i :: 0 <= i < |key| ==> key[i] != '_'
    ensures forall q :: 0 <= q ==> !MatchesAt(ReplaceAll(s, key), key, q)
    decreases |s|
  {
    var r := ReplaceAll(s, key);
    if |s| < |key| {
    } else if Lower(s[..|key|]) == key {
      var t := ReplaceAll(s[|key|..], key);
      ReplaceAllRemovesKey(s[|key|..], key);
      assert r == Blank + t;
      assert r[|Blank|..] == t;
      NoMatchAfter(r, |Blank|, key);
      BlankNoMatch(t, key);
    } else {
      var t := ReplaceAll(s[1..], key);
      ReplaceAllRemovesKey(s[1..], key);
      assert r == [s[0]] + t;
      assert r[1..] == t;
      NoMatchAfter(r, 1, key);
      RemovesKeyAtStart(s, key);
    }
  }

  /** When the text does not start with the key, neither does its blanked form. */
  lemma RemovesKeyAtStart(s: string, key: string)
    requires key != [] && |s| >= |key| && Lower(s[..|key|]) != key
    requires forall i :: 0 <= i < |key| ==> key[i] != '_'
    ensures !MatchesAt(ReplaceAll(s, key), key, 0)
  {
    var r := ReplaceAll(s, key);
    var n := |key|;
    if n <= |r| {
      LowerSlice(r, 0, n);
      if exists i :: 0 <= i < n && r[i] == '_' {
        var i :| 0 <= i < n && r[i] == '_';
        assert Lower(r[..n])[i] == '_' != key[i];
      } else {
        ReplaceAllPrefix(s, key, n);
        assert r[..n] == s[..n];
      }
    }
  }
}
