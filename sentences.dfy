/** The segmenter: `splitSentences` (MyWebsite/script.js) and
    `_split_sentences` (MyWebsite/server/app.py). Both split at
    `(?<=[\.!?])\s+` and trim each piece; the browser drops empty pieces, the
    server drops pieces of two characters or fewer. */
module Sentences {
  import opened Text

  /** k is where the pattern `(?<=[\.!?])\s+` can start: a sentence-ending
      mark just before k and whitespace at k. */
  predicate IsBoundary(s: string, isSpace: char -> bool, k: nat)
  {
    1 <= k < |s| && IsTerminal(s[k - 1]) && isSpace(s[k])
  }

  /** The first boundary at or after `from`, or |s| if there is none. */
  function NextBoundary(s: string, isSpace: char -> bool, from: nat): (k: nat)
    requires 1 <= from
    ensures k == |s| || (from <= k < |s| && IsBoundary(s, isSpace, k))
    ensures forall j :: from <= j < k ==> !IsBoundary(s, isSpace, j)
    decreases |s| - from
  {
    if from >= |s| then |s|
    else if IsBoundary(s, isSpace, from) then from
    else NextBoundary(s, isSpace, from + 1)
  }

  /** `s.split(/(?<=[\.!?])\s+/)` and `re.split(r"(?<=[\.!?])\s+", s)`: the
      separator is the whole whitespace run after the first boundary, and the
      search resumes after it. The remainder starts right after whitespace,
      so its position 0 can never be a boundary, which is why recursing on
      the remainder is the same as continuing the scan. */
  function RawSplit(s: string, isSpace: char -> bool): (parts: seq<string>)
    ensures |parts| >= 1
    decreases |s|
  {
    var k := NextBoundary(s, isSpace, 1);
    if k == |s| then [s]
    else [s[..k]] + RawSplit(s[SpaceRunEnd(s, isSpace, k)..], isSpace)
  }

  /** `.map(s => s.trim()).filter(Boolean)`. */
  function TrimmedNonEmpty(parts: seq<string>, isSpace: char -> bool): (r: seq<string>)
    ensures |r| <= |parts|
    ensures forall i :: 0 <= i < |r| ==>
      r[i] != [] && !isSpace(r[i][0]) && !isSpace(r[i][|r[i]| - 1])
  {
    if parts == [] then []
    else
      var t := Trim(parts[0], isSpace);
      (if t == [] then [] else [t]) + TrimmedNonEmpty(parts[1..], isSpace)
  }

  /** `[p.strip() for p in parts if p and len(p.strip()) > 2]`. */
  function TrimmedLonger(parts: seq<string>, isSpace: char -> bool): (r: seq<string>)
    ensures |r| <= |parts|
    ensures forall i :: 0 <= i < |r| ==>
      |r[i]| > 2 && !isSpace(r[i][0]) && !isSpace(r[i][|r[i]| - 1])
  {
    if parts == [] then []
    else
      var t := Trim(parts[0], isSpace);
      (if parts[0] != [] && |t| > 2 then [t] else []) + TrimmedLonger(parts[1..], isSpace)
  }

  /** The trimmed, non-empty pieces of s. */
  function Segments(s: string, isSpace: char -> bool): seq<string>
  {
    TrimmedNonEmpty(RawSplit(s, isSpace), isSpace)
  }

  /** `splitSentences` of MyWebsite/script.js. */
  function SplitSentences(text: string): (r: seq<string>)
    ensures forall i :: 0 <= i < |r| ==>
      r[i] != [] && !IsJsSpace(r[i][0]) && !IsJsSpace(r[i][|r[i]| - 1])
  {
    Segments(text, IsJsSpace)
  }

  /** `_split_sentences` of MyWebsite/server/app.py. */
  function SplitSentencesPy(text: string): (r: seq<string>)
    ensures forall i :: 0 <= i < |r| ==>
      |r[i]| > 2 && !IsPySpace(r[i][0]) && !IsPySpace(r[i][|r[i]| - 1])
  {
    TrimmedLonger(RawSplit(text, IsPySpace), IsPySpace)
  }

  /** The pieces longer than two characters, in order. */
  function LongerThanTwo(parts: seq<string>): (r: seq<string>)
  {
    if parts == [] then []
    else (if |parts[0]| > 2 then [parts[0]] else []) + LongerThanTwo(parts[1..])
  }

  // ---------------------------------------------------------------------------
  // Content: splitting and trimming drop whitespace and nothing else.

  lemma ConcatSingle(s: string)
    ensures Concat([s]) == s
  {
    assert [s][1..] == [];
  }

  lemma {:induction false} RawSplitKeepsContent(s: string, isSpace: char -> bool)
    ensures Filter(Concat(RawSplit(s, isSpace)), NotSpace(isSpace)) == Filter(s, NotSpace(isSpace))
    decreases |s|
  {
    var k := NextBoundary(s, isSpace, 1);
    if k < |s| {
      var e := SpaceRunEnd(s, isSpace, k);
      var rest := RawSplit(s[e..], isSpace);
      var parts := RawSplit(s, isSpace);
      assert parts == [s[..k]] + rest;
      assert Concat(parts) == s[..k] + Concat(rest) by {
        assert parts[1..] == rest;
      }
      RawSplitKeepsContent(s[e..], isSpace);
      FilterConcat(s[..k], Concat(rest), NotSpace(isSpace));
      FilterSkipsSpaces(s, isSpace, k, e);
    } else {
      assert RawSplit(s, isSpace) == [s];
      ConcatSingle(s);
    }
  }

  lemma {:induction false} TrimmedNonEmptyKeepsContent(parts: seq<string>, isSpace: char -> bool)
    ensures Filter(Concat(TrimmedNonEmpty(parts, isSpace)), NotSpace(isSpace))
      == Filter(Concat(parts), NotSpace(isSpace))
  {
    if parts != [] {
      var p := NotSpace(isSpace);
      var ft := Filter(Trim(parts[0], isSpace), p);
      var tail := Concat(parts[1..]);
      assert Filter(Concat(parts), p) == ft + Filter(tail, p) by {
        FilterConcat(parts[0], tail, p);
        TrimKeepsNonSpace(parts[0], isSpace);
      }
      assert Filter(Concat(TrimmedNonEmpty(parts[1..], isSpace)), p) == Filter(tail, p) by {
        TrimmedNonEmptyKeepsContent(parts[1..], isSpace);
      }
      TrimmedNonEmptyHeadContent(parts, isSpace);
    }
  }

  /** The step of `TrimmedNonEmptyKeepsContent`: the first piece contributes
      the non-whitespace of its trim, whether or not that trim is kept. */
  lemma TrimmedNonEmptyHeadContent(parts: seq<string>, isSpace: char -> bool)
    requires parts != []
    ensures Filter(Concat(TrimmedNonEmpty(parts, isSpace)), NotSpace(isSpace))
      == Filter(Trim(parts[0], isSpace), NotSpace(isSpace))
         + Filter(Concat(TrimmedNonEmpty(parts[1..], isSpace)), NotSpace(isSpace))
  {
    var t := Trim(parts[0], isSpace);
    var rest := TrimmedNonEmpty(parts[1..], isSpace);
    var kept := if t == [] then [] else [t];
    assert TrimmedNonEmpty(parts, isSpace) == kept + rest;
    assert Concat(kept + rest) == t + Concat(rest) by {
      if t == [] {
        assert kept + rest == rest;
      } else {
        assert (kept + rest)[1..] == rest;
      }
    }
    FilterConcat(t, Concat(rest), NotSpace(isSpace));
  }

  /** Sentence splitting keeps every non-whitespace character in its order:
      concatenating the sentences and dropping whitespace gives the input's
      non-whitespace characters. */
  lemma SegmentsKeepContent(s: string, isSpace: char -> bool)
    ensures Filter(Concat(Segments(s, isSpace)), NotSpace(isSpace)) == Filter(s, NotSpace(isSpace))
  {
    TrimmedNonEmptyKeepsContent(RawSplit(s, isSpace), isSpace);
    RawSplitKeepsContent(s, isSpace);
  }

  // ---------------------------------------------------------------------------
  // Shape: pieces end at a sentence mark and hold no further split point.

  predicate EndsWithTerminal(p: string)
  {
    p != [] && IsTerminal(p[|p| - 1])
  }

  /** Every piece but the last ends with a sentence mark. */
  predicate TerminatedPieces(parts: seq<string>)
  {
    forall i :: 0 <= i < |parts| - 1 ==> EndsWithTerminal(parts[i])
  }

  lemma {:induction false} RawSplitEndsWithTerminal(s: string, isSpace: char -> bool)
    ensures TerminatedPieces(RawSplit(s, isSpace))
    decreases |s|
  {
    var k := NextBoundary(s, isSpace, 1);
    if k < |s| {
      var e := SpaceRunEnd(s, isSpace, k);
      RawSplitEndsWithTerminal(s[e..], isSpace);
      var parts := RawSplit(s, isSpace);
      var rest := RawSplit(s[e..], isSpace);
      assert parts == [s[..k]] + rest;
      forall i | 0 <= i < |parts| - 1
        ensures EndsWithTerminal(parts[i])
      {
        if i > 0 {
          assert parts[i] == rest[i - 1];
        }
      }
    }
  }

  /** Trimming keeps a final character that is not whitespace. */
  lemma TrimKeepsLast(p: string, isSpace: char -> bool)
    requires p != [] && !isSpace(p[|p| - 1])
    ensures var t := Trim(p, isSpace); t != [] && t[|t| - 1] == p[|p| - 1]
  {
    var a := TrimLow(p, isSpace);
    assert a < |p|;
  }

  lemma {:induction false} TrimmedNonEmptyEndsWithTerminal(parts: seq<string>, isSpace: char -> bool)
    requires !isSpace('.') && !isSpace('!') && !isSpace('?')
    requires TerminatedPieces(parts)
    ensures TerminatedPieces(TrimmedNonEmpty(parts, isSpace))
  {
    if parts != [] {
      var t := Trim(parts[0], isSpace);
      var rest := TrimmedNonEmpty(parts[1..], isSpace);
      assert TerminatedPieces(parts[1..]) by {
        forall i | 0 <= i < |parts[1..]| - 1
          ensures EndsWithTerminal(parts[1..][i])
        {
          assert parts[1..][i] == parts[i + 1];
        }
      }
      TrimmedNonEmptyEndsWithTerminal(parts[1..], isSpace);
      if |parts| > 1 {
        assert EndsWithTerminal(parts[0]);
        TrimKeepsLast(parts[0], isSpace);
      }
      var r := TrimmedNonEmpty(parts, isSpace);
      assert r == (if t == [] then [] else [t]) + rest;
      forall i | 0 <= i < |r| - 1
        ensures EndsWithTerminal(r[i])
      {
        assert |parts| > 1;
        if i > 0 {
          assert r[i] == rest[i - 1];
        }
      }
    }
  }

  /** Every sentence but the last ends with `.`, `!` or `?`. */
  lemma SegmentsEndWithTerminal(s: string, isSpace: char -> bool)
    requires !isSpace('.') && !isSpace('!') && !isSpace('?')
    ensures TerminatedPieces(Segments(s, isSpace))
  {
    RawSplitEndsWithTerminal(s, isSpace);
    TrimmedNonEmptyEndsWithTerminal(RawSplit(s, isSpace), isSpace);
  }

  /** The piece holds no split point of its own. */
  predicate Unsplittable(p: string, isSpace: char -> bool)
  {
    forall j :: 0 <= j < |p| ==> !IsBoundary(p, isSpace, j)
  }

  /** No piece holds a split point. */
  predicate UnsplittablePieces(parts: seq<string>, isSpace: char -> bool)
  {
    forall i :: 0 <= i < |parts| ==> Unsplittable(parts[i], isSpace)
  }

  lemma {:induction false} RawSplitUnsplittable(s: string, isSpace: char -> bool)
    ensures UnsplittablePieces(RawSplit(s, isSpace), isSpace)
    decreases |s|
  {
    var k := NextBoundary(s, isSpace, 1);
    var parts := RawSplit(s, isSpace);
    if k < |s| {
      var e := SpaceRunEnd(s, isSpace, k);
      RawSplitUnsplittable(s[e..], isSpace);
      var rest := RawSplit(s[e..], isSpace);
      assert parts == [s[..k]] + rest;
      forall j | 0 <= j < k
        ensures !IsBoundary(s[..k], isSpace, j)
      {
        assert !IsBoundary(s, isSpace, j);
      }
      forall i | 0 <= i < |parts|
        ensures Unsplittable(parts[i], isSpace)
      {
        if i > 0 {
          assert parts[i] == rest[i - 1];
        }
      }
    } else {
      assert parts == [s];
      forall j | 0 <= j < |s|
        ensures !IsBoundary(s, isSpace, j)
      {
        assert j == 0 || !IsBoundary(s, isSpace, j);
      }
    }
  }

  lemma TrimUnsplittable(p: string, isSpace: char -> bool)
    requires Unsplittable(p, isSpace)
    ensures Unsplittable(Trim(p, isSpace), isSpace)
  {
    var a := TrimLow(p, isSpace);
    var t := Trim(p, isSpace);
    forall j | 0 <= j < |t|
      ensures !IsBoundary(t, isSpace, j)
    {
      assert !IsBoundary(p, isSpace, a + j);
    }
  }

  lemma {:induction false} TrimmedNonEmptyUnsplittable(parts: seq<string>, isSpace: char -> bool)
    requires UnsplittablePieces(parts, isSpace)
    ensures UnsplittablePieces(TrimmedNonEmpty(parts, isSpace), isSpace)
  {
    if parts != [] {
      TrimUnsplittable(parts[0], isSpace);
      assert UnsplittablePieces(parts[1..], isSpace) by {
        forall i | 0 <= i < |parts[1..]|
          ensures Unsplittable(parts[1..][i], isSpace)
        {
          assert parts[1..][i] == parts[i + 1];
        }
      }
      TrimmedNonEmptyUnsplittable(parts[1..], isSpace);
      var t := Trim(parts[0], isSpace);
      var rest := TrimmedNonEmpty(parts[1..], isSpace);
      var r := TrimmedNonEmpty(parts, isSpace);
      assert r == (if t == [] then [] else [t]) + rest;
      forall i | 0 <= i < |r|
        ensures Unsplittable(r[i], isSpace)
      {
        if t == [] {
          assert r[i] == rest[i];
        } else if i > 0 {
          assert r[i] == rest[i - 1];
        }
      }
    }
  }

  /** No sentence contains a sentence mark followed by whitespace: the
      splitter cut at every such place. */
  lemma SegmentsUnsplittable(s: string, isSpace: char -> bool)
    ensures UnsplittablePieces(Segments(s, isSpace), isSpace)
  {
    RawSplitUnsplittable(s, isSpace);
    TrimmedNonEmptyUnsplittable(RawSplit(s, isSpace), isSpace);
  }

  // ---------------------------------------------------------------------------
  // The two sources.

  lemma SentencesTrimmed(text: string)
    ensures var r := SplitSentences(text);
      forall i :: 0 <= i < |r| ==> r[i] != [] && !IsJsSpace(r[i][0]) && !IsJsSpace(r[i][|r[i]| - 1])
  {
  }

  lemma SentencesUnsplittable(text: string)
    ensures UnsplittablePieces(SplitSentences(text), IsJsSpace)
  {
    SegmentsUnsplittable(text, IsJsSpace);
  }

  lemma SentencesTerminated(text: string)
    ensures TerminatedPieces(SplitSentences(text))
  {
    SegmentsEndWithTerminal(text, IsJsSpace);
  }

  lemma SentencesKeepContent(text: string)
    ensures Filter(Concat(SplitSentences(text)), NotSpace(IsJsSpace)) == Filter(text, NotSpace(IsJsSpace))
  {
    SegmentsKeepContent(text, IsJsSpace);
  }

  /** The browser's sentences are non-empty, trimmed, keep the text's
      content in order, end with a sentence mark (all but the last), and none
      could be split further. */
  lemma SplitSentencesSpec(text: string)
    ensures var r := SplitSentences(text);
      && (forall i :: 0 <= i < |r| ==> r[i] != [] && !IsJsSpace(r[i][0]) && !IsJsSpace(r[i][|r[i]| - 1]))
      && UnsplittablePieces(r, IsJsSpace)
      && TerminatedPieces(r)
      && Filter(Concat(r), NotSpace(IsJsSpace)) == Filter(text, NotSpace(IsJsSpace))
  {
    SentencesTrimmed(text);
    SentencesUnsplittable(text);
    SentencesTerminated(text);
    SentencesKeepContent(text);
  }

  lemma {:induction false} TrimmedLongerIsFiltered(parts: seq<string>, isSpace: char -> bool)
    ensures TrimmedLonger(parts, isSpace) == LongerThanTwo(TrimmedNonEmpty(parts, isSpace))
  {
    if parts != [] {
      TrimmedLongerIsFiltered(parts[1..], isSpace);
      var t := Trim(parts[0], isSpace);
      var rest := TrimmedNonEmpty(parts[1..], isSpace);
      if t == [] {
        assert TrimmedNonEmpty(parts, isSpace) == rest;
      } else {
        assert TrimmedNonEmpty(parts, isSpace) == [t] + rest;
        assert ([t] + rest)[1..] == rest;
        assert |t| > 2 ==> parts[0] != [];
      }
    }
  }

  /** The server's sentences are exactly the browser-style sentences (under
      Python's whitespace set) that are longer than two characters, in the
      same order. */
  lemma SplitSentencesPyIsFiltered(text: string)
    ensures SplitSentencesPy(text) == LongerThanTwo(Segments(text, IsPySpace))
  {
    TrimmedLongerIsFiltered(RawSplit(text, IsPySpace), IsPySpace);
  }

  lemma RawSplitExample1(t: string)
    requires t == "C?"
    ensures RawSplit(t, IsJsSpace) == [t]
  {
    assert NextBoundary(t, IsJsSpace, 1) == 2;
  }

  lemma RawSplitExample2(t: string)
    requires t == "B! C?"
    ensures RawSplit(t, IsJsSpace) == [t[..2], t[3..]]
  {
    assert NextBoundary(t, IsJsSpace, 1) == 2;
    assert SpaceRunEnd(t, IsJsSpace, 2) == 3;
    RawSplitExample1(t[3..]);
  }

  lemma RawSplitExample3(s: string)
    requires s == "A. B! C?"
    ensures RawSplit(s, IsJsSpace) == [s[..2], s[3..5], s[6..]]
  {
    assert NextBoundary(s, IsJsSpace, 1) == 2;
    assert SpaceRunEnd(s, IsJsSpace, 2) == 3;
    RawSplitExample2(s[3..]);
    assert s[3..][..2] == s[3..5] && s[3..][3..] == s[6..];
  }

  /** Pieces that are non-empty and already trimmed are kept as they are. */
  lemma {:induction false} TrimmedNonEmptyIdentity(parts: seq<string>, isSpace: char -> bool)
    requires forall i :: 0 <= i < |parts| ==>
      parts[i] != [] && !isSpace(parts[i][0]) && !isSpace(parts[i][|parts[i]| - 1])
    ensures TrimmedNonEmpty(parts, isSpace) == parts
  {
    if parts != [] {
      TrimUntrimmed(parts[0], isSpace);
      TrimmedNonEmptyIdentity(parts[1..], isSpace);
      assert parts == [parts[0]] + parts[1..];
    }
  }

  /** Example: `"A. B! C?"` gives `["A.", "B!", "C?"]`. */
  lemma SplitSentencesExample(s: string)
    requires s == "A. B! C?"
    ensures SplitSentences(s) == ["A.", "B!", "C?"]
  {
    RawSplitExampleParts(s);
    TrimmedExampleParts(["A.", "B!", "C?"]);
  }

  /** The raw split of `SplitSentencesExample`'s text. */
  lemma RawSplitExampleParts(s: string)
    requires s == "A. B! C?"
    ensures RawSplit(s, IsJsSpace) == ["A.", "B!", "C?"]
  {
    RawSplitExample3(s);
    assert s[..2] == "A." && s[3..5] == "B!" && s[6..] == "C?";
  }

  /** The pieces of `SplitSentencesExample` are already trimmed. */
  lemma TrimmedExampleParts(parts: seq<string>)
    requires parts == ["A.", "B!", "C?"]
    ensures TrimmedNonEmpty(parts, IsJsSpace) == parts
  {
    assert !IsJsSpace('A') && !IsJsSpace('.') && !IsJsSpace('B');
    assert !IsJsSpace('!') && !IsJsSpace('C') && !IsJsSpace('?');
    TrimmedNonEmptyIdentity(parts, IsJsSpace);
  }
}
