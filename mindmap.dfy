/** The mind-map data of MyWebsite/script.js: `extractTitle`,
    `generateMindMapData` (the note title, read from the page there, is a
    parameter here) and `escapeXml`, which applies the five predefined
    entities of section 2.4 of the XML 1.0 specification. */
module MindMap {
  import opened Seqs
  import opened Text
  import opened TextClean
  import opened Tokenizer
  import opened Ranking

  // ---------------------------------------------------------------------------
  // Title and centre.

  /** `s.split(/\n/)[0]`: everything before the first newline. */
  function FirstLine(s: string): (r: string)
    ensures |r| <= |s| && r == s[..|r|]
    ensures '\n' !in r
    ensures |r| < |s| ==> s[|r|] == '\n'
  {
    if s == [] || s[0] == '\n' then [] else [s[0]] + FirstLine(s[1..])
  }

  /** `extractTitle(text)`: the first line of the trimmed text when it is
      non-empty and shorter than 100 characters, `null` otherwise. */
  function ExtractTitle(text: string): (r: Option<string>)
    ensures r.Some? ==> 0 < |r.value| < 100 && '\n' !in r.value
  {
    var line := FirstLine(Trim(text, IsJsSpace));
    if line != [] && |line| < 100 then Some(line) else None
  }

  /** A title is found exactly when the trimmed text is non-empty and its
      first line is shorter than 100 characters; the title is that line:
      a newline-free prefix of the trimmed text that ends at a newline or
      at the end. */
  lemma ExtractTitleSpec(text: string)
    ensures var t := Trim(text, IsJsSpace);
      ExtractTitle(text).Some? <==> t != [] && |FirstLine(t)| < 100
    ensures var t := Trim(text, IsJsSpace);
      ExtractTitle(text).Some? ==>
        var title := ExtractTitle(text).value;
        && 0 < |title| < 100
        && '\n' !in title
        && title == t[..|title|]
        && (|title| < |t| ==> t[|title|] == '\n')
  {
    var t := Trim(text, IsJsSpace);
    if t != [] {
      assert IsJsSpace('\n');
      assert t[0] != '\n';
      assert FirstLine(t) != [];
    }
  }

  /** The browser passes cleaned text, which holds no newline and is already
      trimmed: the title is the whole text when it is non-empty and shorter
      than 100 characters. */
  lemma TitleOfCleanText(s: string)
    ensures var c := CleanText(s);
      ExtractTitle(c) == if 0 < |c| < 100 then Some(c) else None
  {
    var c := CleanText(s);
    CleanTextAscii(s);
    TrimUntrimmed(c, IsJsSpace);
    var line := FirstLine(c);
    assert |line| == |c|;
  }

  /** `{ center, topics }`. */
  datatype MindMapData = MindMapData(center: string, topics: seq<string>)

  /** `(title || extractTitle(text) || 'Notes').slice(0, 80)`. */
  function Center(text: string, title: string): (center: string)
    ensures 0 < |center| <= 80
  {
    var full :=
      if title != [] then title
      else match ExtractTitle(text)
        case Some(t) => t
        case None => "Notes";
    Prefix(full, 80)
  }

  /** `generateMindMapData(text, maxNodes)` with `noteTitle.value` as title. */
  function GenerateMindMapData(text: string, maxNodes: int, title: string): (m: MindMapData)
    ensures 0 < |m.center| <= 80
    ensures maxNodes >= 0 ==> |m.topics| <= maxNodes
  {
    MindMapData(Center(text, title), RankedPhrases(text, maxNodes))
  }

  /** The centre falls back from the title to the extracted title to
      `Notes`, and is cut to 80 characters; the topics are at most maxNodes
      distinct ranked phrases. */
  lemma MindMapSpec(text: string, maxNodes: int, title: string)
    ensures var m := GenerateMindMapData(text, maxNodes, title);
      && 0 < |m.center| <= 80
      && (title != [] ==> m.center == title[..Min(80, |title|)])
      && (title == [] && ExtractTitle(text).Some? ==>
            var t := ExtractTitle(text).value; m.center == t[..Min(80, |t|)])
      && (title == [] && ExtractTitle(text).None? ==> m.center == "Notes")
      && (maxNodes >= 0 ==> |m.topics| <= maxNodes)
      && |m.topics| == SliceStop(|Vocabulary(Tokens(text))|, maxNodes)
      && Distinct(m.topics)
  {
    KeyPhrasesSpec(text, maxNodes);
  }

  /** In the generate flow the title is empty and the text cleaned: the
      centre is the whole cleaned text, cut to 80 characters, when it is
      shorter than 100 characters, and `Notes` otherwise. */
  lemma CenterOfCleanText(s: string)
    ensures var c := CleanText(s);
      Center(c, "") == if 0 < |c| < 100 then c[..Min(80, |c|)] else "Notes"
  {
    TitleOfCleanText(s);
  }

  // ---------------------------------------------------------------------------
  // Escaping.

  /** The characters `escapeXml` replaces. */
  predicate IsReserved(c: char)
  {
    c == '&' || c == '<' || c == '>' || c == '"' || c == '\''
  }

  function EscapeChar(c: char): (r: string)
    ensures 1 <= |r| <= 6
  {
    if c == '&' then "&amp;"
    else if c == '<' then "&lt;"
    else if c == '>' then "&gt;"
    else if c == '"' then "&quot;"
    else if c == '\'' then "&apos;"
    else [c]
  }

  /** `escapeXml(s)`: every reserved character becomes its entity. */
  function EscapeXml(s: string): (r: string)
    ensures |s| <= |r|
  {
    if s == [] then [] else EscapeChar(s[0]) + EscapeXml(s[1..])
  }

  predicate StartsWith(s: string, p: string)
  {
    |p| <= |s| && s[..|p|] == p
  }

  /** One of the five predefined entities begins at position i of s. */
  predicate EntityAt(s: string, i: nat)
    requires i <= |s|
  {
    var t := s[i..];
    StartsWith(t, "&amp;") || StartsWith(t, "&lt;") || StartsWith(t, "&gt;")
    || StartsWith(t, "&quot;") || StartsWith(t, "&apos;")
  }

  /** Position i of s is safe: none of `< > " '`, and an `&` there begins
      an entity. */
  predicate SafeAt(s: string, i: nat)
    requires i < |s|
  {
    s[i] != '<' && s[i] != '>' && s[i] != '"' && s[i] != '\''
    && (s[i] == '&' ==> EntityAt(s, i))
  }

  /** An escaped character, whatever follows it, is safe throughout. */
  lemma EscapeCharSafe(c: char, t: string)
    ensures forall i :: 0 <= i < |EscapeChar(c)| ==> SafeAt(EscapeChar(c) + t, i)
  {
    var e := EscapeChar(c);
    var r := e + t;
    assert r[..|e|] == e;
    forall i | 0 <= i < |e| ensures SafeAt(r, i) {
      assert r[i] == e[i];
      if i == 0 {
        assert r[0..] == r;
      }
    }
  }

  /** Escaped text is safe markup: none of `< > " '` is left, and every `&`
      begins an entity. */
  lemma {:induction false} EscapeXmlSafe(s: string)
    ensures forall i :: 0 <= i < |EscapeXml(s)| ==> SafeAt(EscapeXml(s), i)
  {
    if s != [] {
      var e := EscapeChar(s[0]);
      var rest := EscapeXml(s[1..]);
      var r := EscapeXml(s);
      EscapeXmlSafe(s[1..]);
      EscapeCharSafe(s[0], rest);
      assert r == e + rest;
      forall i | |e| <= i < |r| ensures SafeAt(r, i) {
        assert SafeAt(rest, i - |e|);
        assert r[i] == rest[i - |e|];
        assert r[i..] == rest[i - |e|..];
      }
    }
  }

  /** Text without reserved characters is left as it is. */
  lemma {:induction false} EscapeXmlIdentity(s: string)
    requires forall i :: 0 <= i < |s| ==> !IsReserved(s[i])
    ensures EscapeXml(s) == s
  {
    if s != [] {
      EscapeXmlIdentity(s[1..]);
      assert s == [s[0]] + s[1..];
    }
  }

  /** Escaping works character by character from position k on. */
  lemma EscapeXmlFrom(s: string, k: nat)
    requires k < |s|
    ensures EscapeXml(s[k..]) == EscapeChar(s[k]) + EscapeXml(s[k + 1..])
  {
    assert s[k..][1..] == s[k + 1..];
  }

  /** Escaping works piece by piece. */
  lemma {:induction false} EscapeXmlAppend(a: string, b: string)
    ensures EscapeXml(a + b) == EscapeXml(a) + EscapeXml(b)
  {
    if a != [] {
      assert (a + b)[0] == a[0] && (a + b)[1..] == a[1..] + b;
      EscapeXmlAppend(a[1..], b);
      assert EscapeXml(a + b) == EscapeChar(a[0]) + (EscapeXml(a[1..]) + EscapeXml(b));
    } else {
      assert a + b == b;
    }
  }

  lemma EscapeXmlExample(s: string)
    requires s == "R&D <lab>"
    ensures EscapeXml(s) == "R&amp;D &lt;lab&gt;"
  {
    assert s == s[..4] + s[4..];
    EscapeXmlHeadExample(s[..4]);
    EscapeXmlTailExample(s[4..]);
    EscapeXmlAppend(s[..4], s[4..]);
  }

  lemma EscapeXmlHeadExample(t: string)
    requires t == "R&D "
    ensures EscapeXml(t) == "R&amp;D "
  {
    assert EscapeXml(t[4..]) == [];
    EscapeXmlFrom(t, 3);
    EscapeXmlFrom(t, 2);
    EscapeXmlFrom(t, 1);
    EscapeXmlFrom(t, 0);
    assert t[0..] == t;
  }

  lemma EscapeXmlTailExample(t: string)
    requires t == "<lab>"
    ensures EscapeXml(t) == "&lt;lab&gt;"
  {
    assert EscapeXml(t[5..]) == [];
    EscapeXmlFrom(t, 4);
    EscapeXmlFrom(t, 3);
    EscapeXmlFrom(t, 2);
    EscapeXmlFrom(t, 1);
    EscapeXmlFrom(t, 0);
    assert t[0..] == t;
  }

  /** The inverse of `EscapeXml`: each entity becomes its character again. */
  function Unescape(s: string): string
    decreases |s|
  {
    if s == [] then []
    else if StartsWith(s, "&amp;") then "&" + Unescape(s[5..])
    else if StartsWith(s, "&lt;") then "<" + Unescape(s[4..])
    else if StartsWith(s, "&gt;") then ">" + Unescape(s[4..])
    else if StartsWith(s, "&quot;") then "\"" + Unescape(s[6..])
    else if StartsWith(s, "&apos;") then "'" + Unescape(s[6..])
    else [s[0]] + Unescape(s[1..])
  }

  /** A mismatch at position k rules out a prefix. */
  lemma NotStartsWith(s: string, p: string, k: nat)
    requires k < |p| && k < |s| && s[k] != p[k]
    ensures !StartsWith(s, p)
  {
    if |p| <= |s| {
      assert s[..|p|][k] == s[k];
    }
  }

  /** Unescaping reads one escaped character back off the front. */
  lemma UnescapeChar(c: char, t: string)
    ensures Unescape(EscapeChar(c) + t) == [c] + Unescape(t)
  {
    var e := EscapeChar(c);
    var s := e + t;
    assert s[..|e|] == e;
    assert s[|e|..] == t;
    assert s[0] == e[0];
    if c == '&' {
    } else if c == '<' {
      NotStartsWith(s, "&amp;", 1);
    } else if c == '>' {
      NotStartsWith(s, "&amp;", 1);
      NotStartsWith(s, "&lt;", 1);
    } else if c == '"' {
      NotStartsWith(s, "&amp;", 1);
      NotStartsWith(s, "&lt;", 1);
      NotStartsWith(s, "&gt;", 1);
    } else if c == '\'' {
      NotStartsWith(s, "&amp;", 2);
      NotStartsWith(s, "&lt;", 1);
      NotStartsWith(s, "&gt;", 1);
      NotStartsWith(s, "&quot;", 1);
    } else {
      NotStartsWith(s, "&amp;", 0);
      NotStartsWith(s, "&lt;", 0);
      NotStartsWith(s, "&gt;", 0);
      NotStartsWith(s, "&quot;", 0);
      NotStartsWith(s, "&apos;", 0);
    }
  }

  /** Escaping loses nothing: unescaping gives the input back. */
  lemma {:induction false} UnescapeEscapeXml(s: string)
    ensures Unescape(EscapeXml(s)) == s
  {
    if s != [] {
      UnescapeChar(s[0], EscapeXml(s[1..]));
      UnescapeEscapeXml(s[1..]);
      assert s == [s[0]] + s[1..];
    }
  }
}
