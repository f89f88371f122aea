/** The word pattern both rankers use: `/[a-z0-9][a-z0-9\-']+/g` over the
    lower-cased text in MyWebsite/script.js, and
    `re.findall(r"[a-zA-Z0-9][a-zA-Z0-9\-']+", text.lower())` in
    MyWebsite/server/app.py. On lower-cased text the two patterns find the
    same matches (see `LowerHasNoUpper`). */
module Tokenizer {
  import opened Text

  predicate IsTokenStart(c: char)
  {
    ('a' <= c <= 'z') || ('0' <= c <= '9')
  }

  predicate IsTokenChar(c: char)
  {
    IsTokenStart(c) || c == '-' || c == '\''
  }

  /** A whole match of the word pattern: a letter or digit followed by at
      least one letter, digit, hyphen or apostrophe. */
  predicate IsToken(w: string)
  {
    |w| >= 2 && IsTokenStart(w[0]) && forall i :: 1 <= i < |w| ==> IsTokenChar(w[i])
  }

  /** End of the run of token characters that starts at j. */
  function TokenRunEnd(s: string, j: nat): (e: nat)
    requires j <= |s|
    ensures j <= e <= |s|
    ensures forall k :: j <= k < e ==> IsTokenChar(s[k])
    ensures e < |s| ==> !IsTokenChar(s[e])
    decreases |s| - j
  {
    if j < |s| && IsTokenChar(s[j]) then TokenRunEnd(s, j + 1) else j
  }

  /** The global, greedy, left-to-right matches of the pattern in s[p..]. A
      match needs a start character followed by a token character; the `+`
      then takes the whole run, and the search resumes where the match ended. */
  function Scan(s: string, p: nat): (ws: seq<string>)
    requires p <= |s|
    ensures forall i :: 0 <= i < |ws| ==> IsToken(ws[i])
    decreases |s| - p
  {
    if p + 1 >= |s| then []
    else if IsTokenStart(s[p]) && IsTokenChar(s[p + 1]) then
      var e := TokenRunEnd(s, p + 2);
      [s[p..e]] + Scan(s, e)
    else Scan(s, p + 1)
  }

  /** The words of the text: the matches of the pattern in its lower-cased form. */
  function Tokens(text: string): (ws: seq<string>)
    ensures forall i :: 0 <= i < |ws| ==> IsToken(ws[i])
  {
    Scan(Lower(text), 0)
  }

  /** A match starting at p takes the whole run up to the next non-token character. */
  lemma ScanWord(s: string, p: nat, e: nat)
    requires p + 1 < e <= |s|
    requires IsTokenStart(s[p])
    requires forall k :: p < k < e ==> IsTokenChar(s[k])
    requires e < |s| ==> !IsTokenChar(s[e])
    ensures Scan(s, p) == [s[p..e]] + Scan(s, e)
  {
    assert TokenRunEnd(s, p + 2) == e by {
      TokenRunEndAt(s, p + 2, e);
    }
  }

  lemma {:induction false} TokenRunEndAt(s: string, j: nat, e: nat)
    requires j <= e <= |s|
    requires forall k :: j <= k < e ==> IsTokenChar(s[k])
    requires e < |s| ==> !IsTokenChar(s[e])
    ensures TokenRunEnd(s, j) == e
    decreases e - j
  {
    if j < e {
      TokenRunEndAt(s, j + 1, e);
    }
  }

  /** No match starts at a character outside `[a-z0-9]`. */
  lemma ScanSkip(s: string, p: nat)
    requires p < |s| && !IsTokenStart(s[p])
    ensures Scan(s, p) == Scan(s, p + 1)
  {
  }

  /** Lower-cased text holds no upper-case ASCII letter, so the server's
      `[a-zA-Z0-9]` start class and the browser's `[a-z0-9]` agree on it. */
  lemma LowerHasNoUpper(text: string)
    ensures forall i :: 0 <= i < |Lower(text)| ==> !('A' <= Lower(text)[i] <= 'Z')
  {
  }

  /** The run of token characters from |a| + j in a + b is the run from j in b, shifted. */
  lemma {:induction false} TokenRunEndShift(a: string, b: string, j: nat)
    requires j <= |b|
    ensures TokenRunEnd(a + b, |a| + j) == |a| + TokenRunEnd(b, j)
    decreases |b| - j
  {
    if j < |b| {
      assert (a + b)[|a| + j] == b[j];
      TokenRunEndShift(a, b, j + 1);
    }
  }

  lemma SliceShift(a: string, b: string, i: nat, j: nat)
    requires i <= j <= |b|
    ensures (a + b)[|a| + i..|a| + j] == b[i..j]
  {
    assert forall k :: 0 <= k < j - i ==> (a + b)[|a| + i..|a| + j][k] == b[i..j][k];
  }

  /** Scanning a + b from inside b is scanning b. */
  lemma {:induction false} ScanShift(a: string, b: string, k: nat)
    requires k <= |b|
    ensures Scan(a + b, |a| + k) == Scan(b, k)
    decreases |b| - k
  {
    if k + 1 < |b| && IsTokenStart(b[k]) && IsTokenChar(b[k + 1]) {
      var e := TokenRunEnd(b, k + 2);
      TokenRunEndShift(a, b, k + 2);
      ScanShift(a, b, e);
      ScanShiftWord(a, b, k, e);
    } else if k + 1 < |b| {
      ScanShift(a, b, k + 1);
      ScanShiftSkip(a, b, k);
    }
  }

  /** The step of `ScanShift` that takes the word b[k..e]. */
  lemma ScanShiftWord(a: string, b: string, k: nat, e: nat)
    requires k + 1 < |b| && IsTokenStart(b[k]) && IsTokenChar(b[k + 1])
    requires e == TokenRunEnd(b, k + 2) && TokenRunEnd(a + b, |a| + k + 2) == |a| + e
    requires Scan(a + b, |a| + e) == Scan(b, e)
    ensures Scan(a + b, |a| + k) == Scan(b, k)
  {
    var s := a + b;
    var p := |a| + k;
    assert s[p] == b[k] && s[p + 1] == b[k + 1];
    SliceShift(a, b, k, e);
    assert Scan(s, p) == [s[p..|a| + e]] + Scan(s, |a| + e);
  }

  /** The step of `ScanShift` that passes over position k of b. */
  lemma ScanShiftSkip(a: string, b: string, k: nat)
    requires k + 1 < |b| && !(IsTokenStart(b[k]) && IsTokenChar(b[k + 1]))
    requires Scan(a + b, |a| + k + 1) == Scan(b, k + 1)
    ensures Scan(a + b, |a| + k) == Scan(b, k)
  {
    var s := a + b;
    var p := |a| + k;
    assert s[p] == b[k] && s[p + 1] == b[k + 1];
  }

  /** A run of token characters stops at the end of a when a ends with a
      character that cannot continue a token. */
  lemma {:induction false} TokenRunEndPrefix(a: string, b: string, j: nat)
    requires j <= |a| && a != [] && !IsTokenChar(a[|a| - 1])
    ensures TokenRunEnd(a + b, j) == TokenRunEnd(a, j) < |a| || j == |a|
    decreases |a| - j
  {
    if j < |a| {
      assert (a + b)[j] == a[j];
      if IsTokenChar(a[j]) {
        TokenRunEndPrefix(a, b, j + 1);
      }
    }
  }

  /** Scanning a + b, where a ends with a character that cannot be part of a
      word, finds the words of a and then the words of b. */
  lemma {:induction false} ScanAppend(a: string, b: string, p: nat)
    requires p <= |a| && a != [] && !IsTokenChar(a[|a| - 1])
    ensures Scan(a + b, p) == Scan(a, p) + Scan(b, 0)
    decreases |a| - p
  {
    if p == |a| {
      ScanAppendEnd(a, b);
    } else if p + 1 < |a| && IsTokenStart(a[p]) && IsTokenChar(a[p + 1]) {
      var e := TokenRunEnd(a, p + 2);
      assert e == TokenRunEnd(a + b, p + 2) < |a| by {
        TokenRunEndPrefix(a, b, p + 2);
      }
      assert Scan(a + b, e) == Scan(a, e) + Scan(b, 0) by {
        ScanAppend(a, b, e);
      }
      ScanAppendWord(a, b, p, e);
    } else {
      assert Scan(a + b, p + 1) == Scan(a, p + 1) + Scan(b, 0) by {
        ScanAppend(a, b, p + 1);
      }
      ScanAppendSkip(a, b, p);
    }
  }

  /** The end of `ScanAppend`: nothing of a is left, so what remains is b's. */
  lemma ScanAppendEnd(a: string, b: string)
    ensures Scan(a + b, |a|) == Scan(a, |a|) + Scan(b, 0)
  {
    ScanShift(a, b, 0);
    assert Scan(a, |a|) == [];
  }

  /** The step of `ScanAppend` that takes the word a[p..e]. */
  lemma ScanAppendWord(a: string, b: string, p: nat, e: nat)
    requires p + 1 < |a| && IsTokenStart(a[p]) && IsTokenChar(a[p + 1])
    requires e == TokenRunEnd(a, p + 2) == TokenRunEnd(a + b, p + 2) < |a|
    requires Scan(a + b, e) == Scan(a, e) + Scan(b, 0)
    ensures Scan(a + b, p) == Scan(a, p) + Scan(b, 0)
  {
    var s := a + b;
    assert s[p] == a[p] && s[p + 1] == a[p + 1];
    assert s[p..e] == a[p..e];
    assert Scan(s, p) == [s[p..e]] + Scan(s, e);
    assert Scan(a, p) == [a[p..e]] + Scan(a, e);
  }

  /** The step of `ScanAppend` that passes over position p. */
  lemma ScanAppendSkip(a: string, b: string, p: nat)
    requires p < |a| && !IsTokenChar(a[|a| - 1])
    requires !(p + 1 < |a| && IsTokenStart(a[p]) && IsTokenChar(a[p + 1]))
    requires Scan(a + b, p + 1) == Scan(a, p + 1) + Scan(b, 0)
    ensures Scan(a + b, p) == Scan(a, p) + Scan(b, 0)
  {
    var s := a + b;
    assert s[p] == a[p];
    if p + 1 < |a| {
      assert s[p + 1] == a[p + 1];
    }
  }

  /** Lower-case words joined by single spaces scan back to those words. */
  lemma {:induction false} ScanJoin(ws: seq<string>)
    requires forall i :: 0 <= i < |ws| ==> IsToken(ws[i])
    ensures Scan(Join(" ", ws), 0) == ws
  {
    if |ws| == 1 {
      ScanWord(ws[0], 0, |ws[0]|);
      assert ws[0][0..|ws[0]|] == ws[0];
    } else if |ws| > 1 {
      var w := ws[0];
      var a := w + " ";
      var rest := ws[1..];
      ScanJoin(rest);
      assert Join(" ", ws) == a + Join(" ", rest);
      ScanAppend(a, Join(" ", rest), 0);
      ScanWord(a, 0, |w|);
      assert a[0..|w|] == w;
      assert ws == [w] + rest;
    }
  }
}
