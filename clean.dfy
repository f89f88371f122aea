/** The normalizer: `cleanText` (MyWebsite/script.js) and `_clean_text`
    (MyWebsite/server/app.py). Both collapse every whitespace run to one space,
    replace each character outside `\w`, `\s` and `. , ; : ! ? - ( )` by a
    space, and trim. They differ only in their character classes. */
module TextClean {
  import opened Text

  /** `replace(/\s+/g, ' ')`: each maximal whitespace run becomes one space. */
  function Collapse(s: string, isSpace: char -> bool): (r: string)
    ensures forall i :: 0 <= i < |r| ==> r[i] == ' ' || !isSpace(r[i])
    decreases |s|
  {
    if s == [] then []
    else if isSpace(s[0]) then [' '] + Collapse(s[SpaceRunEnd(s, isSpace, 0)..], isSpace)
    else [s[0]] + Collapse(s[1..], isSpace)
  }

  /** Whether the character class `[\w\s\.,;:!\?\-\(\)]` accepts c. */
  predicate Allowed(c: char, isSpace: char -> bool, isWord: char -> bool)
  {
    isWord(c) || isSpace(c) || IsKeptPunct(c)
  }

  /** `replace(/[^\w\s\.,;:!\?\-\(\)]/g, ' ')`, one character at a time. */
  function Mask(s: string, isSpace: char -> bool, isWord: char -> bool): (r: string)
    ensures |r| == |s|
    ensures forall i :: 0 <= i < |s| ==>
      r[i] == (if Allowed(s[i], isSpace, isWord) then s[i] else ' ')
  {
    if s == [] then []
    else [if Allowed(s[0], isSpace, isWord) then s[0] else ' '] + Mask(s[1..], isSpace, isWord)
  }

  /** The three steps in the order both sources apply them. The result is
      already trimmed: a final `trim()` would leave it as it is. */
  function Clean(s: string, isSpace: char -> bool, isWord: char -> bool): (r: string)
    ensures Trim(r, isSpace) == r
  {
    var t := Trim(Mask(Collapse(s, isSpace), isSpace, isWord), isSpace);
    TrimUntrimmed(t, isSpace);
    t
  }

  /** The characters a cleaner keeps as they are: allowed and not whitespace. */
  function Kept(isSpace: char -> bool, isWord: char -> bool): char -> bool
  {
    c => !isSpace(c) && (isWord(c) || IsKeptPunct(c))
  }

  /** Every character of the cleaned text is a word character, a plain space
      or kept punctuation; no other whitespace survives. */
  lemma CleanCharset(s: string, isSpace: char -> bool, isWord: char -> bool)
    ensures var r := Clean(s, isSpace, isWord);
      forall i :: 0 <= i < |r| ==> isWord(r[i]) || r[i] == ' ' || IsKeptPunct(r[i])
  {
    var c := Collapse(s, isSpace);
    var m := Mask(c, isSpace, isWord);
    TrimSlice(m, isSpace);
    var a := TrimLow(m, isSpace);
    var r := m[a..TrimHigh(m, isSpace, a, |m|)];
    forall i | 0 <= i < |r|
      ensures isWord(r[i]) || r[i] == ' ' || IsKeptPunct(r[i])
    {
      assert r[i] == m[a + i];
      assert c[a + i] == ' ' || !isSpace(c[a + i]);
    }
  }

  /** Collapsing only rewrites whitespace, so a filter that rejects all
      whitespace sees the same characters before and after. */
  lemma {:induction false} CollapseKeeps(s: string, isSpace: char -> bool, q: char -> bool)
    requires !q(' ')
    requires forall i :: 0 <= i < |s| && isSpace(s[i]) ==> !q(s[i])
    ensures Filter(Collapse(s, isSpace), q) == Filter(s, q)
    decreases |s|
  {
    if s != [] {
      if isSpace(s[0]) {
        var e := SpaceRunEnd(s, isSpace, 0);
        CollapseKeeps(s[e..], isSpace, q);
        assert s == s[..e] + s[e..];
        FilterConcat(s[..e], s[e..], q);
        FilterNone(s[..e], q);
        FilterConcat([' '], Collapse(s[e..], isSpace), q);
      } else {
        CollapseKeeps(s[1..], isSpace, q);
        FilterConcat([s[0]], Collapse(s[1..], isSpace), q);
      }
    }
  }

  /** Masking turns every character it rejects into whitespace. */
  lemma {:induction false} MaskKeeps(s: string, isSpace: char -> bool, isWord: char -> bool)
    requires isSpace(' ')
    ensures Filter(Mask(s, isSpace, isWord), NotSpace(isSpace)) == Filter(s, Kept(isSpace, isWord))
  {
    if s != [] {
      MaskKeeps(s[1..], isSpace, isWord);
      var m := Mask(s, isSpace, isWord);
      assert m == [m[0]] + Mask(s[1..], isSpace, isWord);
      FilterConcat([m[0]], Mask(s[1..], isSpace, isWord), NotSpace(isSpace));
    }
  }

  /** Cleaning loses no kept character and invents none: apart from
      whitespace, the output is exactly the input's word characters and
      kept punctuation, in their original order. */
  lemma CleanKeepsContent(s: string, isSpace: char -> bool, isWord: char -> bool)
    requires isSpace(' ')
    ensures Filter(Clean(s, isSpace, isWord), NotSpace(isSpace)) == Filter(s, Kept(isSpace, isWord))
  {
    var c := Collapse(s, isSpace);
    var m := Mask(c, isSpace, isWord);
    TrimKeepsNonSpace(m, isSpace);
    MaskKeeps(c, isSpace, isWord);
    CollapseKeeps(s, isSpace, Kept(isSpace, isWord));
  }

  /** `cleanText` of MyWebsite/script.js: JavaScript whitespace, ASCII `\w`. */
  function CleanText(s: string): (r: string)
    ensures forall i :: 0 <= i < |r| ==> IsAsciiWord(r[i]) || r[i] == ' ' || IsKeptPunct(r[i])
    ensures r == [] || (!IsJsSpace(r[0]) && !IsJsSpace(r[|r| - 1]))
  {
    CleanCharset(s, IsJsSpace, IsAsciiWord);
    Clean(s, IsJsSpace, IsAsciiWord)
  }

  /** `_clean_text` of MyWebsite/server/app.py. Python's `\w` is Unicode-aware;
      the word class is a parameter standing for it. */
  function CleanTextPy(s: string, isWord: char -> bool): (r: string)
    ensures forall i :: 0 <= i < |r| ==> isWord(r[i]) || r[i] == ' ' || IsKeptPunct(r[i])
    ensures r == [] || (!IsPySpace(r[0]) && !IsPySpace(r[|r| - 1]))
  {
    CleanCharset(s, IsPySpace, isWord);
    Clean(s, IsPySpace, isWord)
  }

  /** What the browser's cleaner may output is ASCII, and neither a tab
      nor a newline. */
  lemma CleanCharAscii(c: char)
    requires IsAsciiWord(c) || c == ' ' || IsKeptPunct(c)
    ensures c as int < 128 && c != '\t' && c != '\n'
  {
  }

  /** The browser's cleaned text is pure ASCII, and holds no tab or newline. */
  lemma CleanTextAscii(s: string)
    ensures var r := CleanText(s);
      forall i :: 0 <= i < |r| ==> r[i] as int < 128 && r[i] != '\t' && r[i] != '\n'
  {
    var r := CleanText(s);
    forall i | 0 <= i < |r| ensures r[i] as int < 128 && r[i] != '\t' && r[i] != '\n' {
      CleanCharAscii(r[i]);
    }
  }

  /** What the browser's cleaner keeps: everything but whitespace and the
      characters it blanks out, in order. */
  lemma CleanTextKeepsContent(s: string)
    ensures Filter(CleanText(s), NotSpace(IsJsSpace)) == Filter(s, Kept(IsJsSpace, IsAsciiWord))
  {
    CleanKeepsContent(s, IsJsSpace, IsAsciiWord);
  }

  lemma CollapseExample(s: string)
    requires s == "a@ b"
    ensures Collapse(s, IsJsSpace) == s
  {
    assert Collapse(s[3..], IsJsSpace) == s[3..];
    assert SpaceRunEnd(s[2..], IsJsSpace, 0) == 1;
    assert s[2..][1..] == s[3..];
    assert Collapse(s[2..], IsJsSpace) == s[2..];
    assert Collapse(s[1..], IsJsSpace) == s[1..];
  }

  lemma MaskExample(s: string, t: string)
    requires s == "a@ b" && t == "a  b"
    ensures Mask(s, IsJsSpace, IsAsciiWord) == t
  {
    var m := Mask(s, IsJsSpace, IsAsciiWord);
    assert m[1] == ' ' by {
      assert !Allowed(s[1], IsJsSpace, IsAsciiWord);
    }
  }

  lemma CollapseRunExample(t: string, u: string)
    requires t == "a  b" && u == "a b"
    ensures Collapse(t, IsJsSpace) == u
  {
    var r := t[1..];
    assert SpaceRunEnd(r, IsJsSpace, 2) == 2;
    assert SpaceRunEnd(r, IsJsSpace, 1) == 2;
    assert SpaceRunEnd(r, IsJsSpace, 0) == 2;
    assert r[2..] == t[3..];
    assert Collapse(t[3..], IsJsSpace) == t[3..];
  }

  lemma MaskIdentity(s: string, isSpace: char -> bool, isWord: char -> bool)
    requires forall i :: 0 <= i < |s| ==> Allowed(s[i], isSpace, isWord)
    ensures Mask(s, isSpace, isWord) == s
  {
  }

  /** Cleaning is not idempotent: a blanked symbol next to a space leaves a
      run of two spaces that only a second pass collapses. */
  lemma CleanTextNotIdempotent(s: string, t: string, u: string)
    requires s == "a@ b" && t == "a  b" && u == "a b"
    ensures CleanText(s) == t && CleanText(t) == u
  {
    CleanTextFirstPass(s, t);
    CleanTextSecondPass(t, u);
  }

  /** The first pass of `CleanTextNotIdempotent`: the symbol becomes a space. */
  lemma CleanTextFirstPass(s: string, t: string)
    requires s == "a@ b" && t == "a  b"
    ensures CleanText(s) == t
  {
    CollapseExample(s);
    MaskExample(s, t);
    TrimUntrimmed(t, IsJsSpace);
  }

  /** The second pass of `CleanTextNotIdempotent`: the two spaces collapse. */
  lemma CleanTextSecondPass(t: string, u: string)
    requires t == "a  b" && u == "a b"
    ensures CleanText(t) == u
  {
    CollapseRunExample(t, u);
    MaskIdentity(u, IsJsSpace, IsAsciiWord);
    TrimUntrimmed(u, IsJsSpace);
  }
}
