/** Character classes and string primitives used by both engines: the
    whitespace sets of JavaScript's `\s`/`trim` and of Python's `\s`/`strip`,
    the ASCII word class of JavaScript's `\w`, lower-casing, trimming and
    literal substring search. */
module Text {
  import opened Seqs

  datatype Option<T> = None | Some(value: T)

  /** JavaScript `\s` and the set `String.prototype.trim` removes:
      WhiteSpace and LineTerminator of ECMA-262. */
  predicate IsJsSpace(c: char)
  {
    c == '\t' || c == '\n' || c == '\U{B}' || c == '\U{C}' || c == '\r' || c == ' '
    || c == '\U{A0}' || c == '\U{1680}' || ('\U{2000}' <= c <= '\U{200A}')
    || c == '\U{2028}' || c == '\U{2029}' || c == '\U{202F}' || c == '\U{205F}'
    || c == '\U{3000}' || c == '\U{FEFF}'
  }

  /** Python's `str.isspace`, which is also what `\s` matches in a `str`
      pattern and what `str.strip()` removes. */
  predicate IsPySpace(c: char)
  {
    c == '\t' || c == '\n' || c == '\U{B}' || c == '\U{C}' || c == '\r'
    || ('\U{1C}' <= c <= '\U{1F}') || c == ' ' || c == '\U{85}' || c == '\U{A0}'
    || c == '\U{1680}' || ('\U{2000}' <= c <= '\U{200A}') || c == '\U{2028}'
    || c == '\U{2029}' || c == '\U{202F}' || c == '\U{205F}' || c == '\U{3000}'
  }

  /** JavaScript `\w` (no `u` flag): `[A-Za-z0-9_]`. */
  predicate IsAsciiWord(c: char)
  {
    ('A' <= c <= 'Z') || ('a' <= c <= 'z') || ('0' <= c <= '9') || c == '_'
  }

  /** The punctuation both cleaners keep: `. , ; : ! ? - ( )`. */
  predicate IsKeptPunct(c: char)
  {
    c == '.' || c == ',' || c == ';' || c == ':' || c == '!' || c == '?'
    || c == '-' || c == '(' || c == ')'
  }

  /** The characters after which a sentence may end. */
  predicate IsTerminal(c: char)
  {
    c == '.' || c == '!' || c == '?'
  }

  function LowerChar(c: char): char
  {
    if 'A' <= c <= 'Z' then (c as int + 32) as char else c
  }

  /** `toLowerCase()` / `lower()`, restricted to the ASCII letters. */
  function Lower(s: string): (r: string)
    ensures |r| == |s|
    ensures forall i :: 0 <= i < |s| ==> r[i] == LowerChar(s[i])
  {
    seq(|s|, i requires 0 <= i < |s| => LowerChar(s[i]))
  }

  /** Text without upper-case ASCII letters is its own lower-cased form. */
  lemma LowerIdentity(s: string)
    requires forall i :: 0 <= i < |s| ==> !('A' <= s[i] <= 'Z')
    ensures Lower(s) == s
  {
  }

  /** Lower-casing works piece by piece. */
  lemma LowerAppend(a: string, b: string)
    ensures Lower(a + b) == Lower(a) + Lower(b)
  {
    assert forall i :: 0 <= i < |a + b| ==> Lower(a + b)[i] == (Lower(a) + Lower(b))[i];
  }

  /** The characters of s that satisfy p, in order. */
  function Filter(s: string, p: char -> bool): (r: string)
    ensures |r| <= |s|
    ensures forall i :: 0 <= i < |r| ==> p(r[i])
  {
    if s == [] then [] else (if p(s[0]) then [s[0]] else []) + Filter(s[1..], p)
  }

  /** The predicate "is not whitespace" for the given whitespace set. */
  function NotSpace(isSpace: char -> bool): char -> bool
  {
    c => !isSpace(c)
  }

  lemma {:induction false} FilterConcat(a: string, b: string, p: char -> bool)
    ensures Filter(a + b, p) == Filter(a, p) + Filter(b, p)
  {
    if a == [] {
      assert a + b == b;
    } else {
      assert (a + b)[0] == a[0];
      assert (a + b)[1..] == a[1..] + b;
      FilterConcat(a[1..], b, p);
    }
  }

  /** Filtering with a predicate that rejects every character yields nothing. */
  lemma {:induction false} FilterNone(s: string, p: char -> bool)
    requires forall i :: 0 <= i < |s| ==> !p(s[i])
    ensures Filter(s, p) == []
  {
    if s != [] {
      FilterNone(s[1..], p);
    }
  }

  /** End of the maximal run of isSpace characters that starts at j. */
  function SpaceRunEnd(s: string, isSpace: char -> bool, j: nat): (e: nat)
    requires j <= |s|
    ensures j <= e <= |s|
    ensures forall k :: j <= k < e ==> isSpace(s[k])
    ensures e < |s| ==> !isSpace(s[e])
    decreases |s| - j
  {
    if j < |s| && isSpace(s[j]) then SpaceRunEnd(s, isSpace, j + 1) else j
  }

  /** Index of the first character of s that is not whitespace (|s| if none). */
  function TrimLow(s: string, isSpace: char -> bool): (a: nat)
    ensures a <= |s|
    ensures forall i :: 0 <= i < a ==> isSpace(s[i])
    ensures a < |s| ==> !isSpace(s[a])
  {
    SpaceRunEnd(s, isSpace, 0)
  }

  /** One past the last character of s[a..hi] that is not whitespace (a if none). */
  function TrimHigh(s: string, isSpace: char -> bool, a: nat, hi: nat): (b: nat)
    requires a <= hi <= |s|
    ensures a <= b <= hi
    ensures forall i :: b <= i < hi ==> isSpace(s[i])
    ensures b > a ==> !isSpace(s[b - 1])
    decreases hi
  {
    if hi > a && isSpace(s[hi - 1]) then TrimHigh(s, isSpace, a, hi - 1) else hi
  }

  /** `trim()` / `strip()` for the given whitespace set. */
  function Trim(s: string, isSpace: char -> bool): (r: string)
    ensures r == [] || (!isSpace(r[0]) && !isSpace(r[|r| - 1]))
  {
    var a := TrimLow(s, isSpace);
    s[a..TrimHigh(s, isSpace, a, |s|)]
  }

  /** Trimming cuts off whitespace only, from both ends. */
  lemma TrimSlice(s: string, isSpace: char -> bool)
    ensures var a := TrimLow(s, isSpace);
      var b := TrimHigh(s, isSpace, a, |s|);
      a <= b <= |s| && Trim(s, isSpace) == s[a..b]
      && (forall i :: 0 <= i < a ==> isSpace(s[i]))
      && (forall i :: b <= i < |s| ==> isSpace(s[i]))
  {
  }

  /** Text that neither starts nor ends with whitespace is its own trim. */
  lemma TrimUntrimmed(s: string, isSpace: char -> bool)
    requires s == [] || (!isSpace(s[0]) && !isSpace(s[|s| - 1]))
    ensures Trim(s, isSpace) == s
  {
    if s != [] {
      assert TrimLow(s, isSpace) == 0;
      assert TrimHigh(s, isSpace, 0, |s|) == |s|;
    }
  }

  /** Text made of whitespace has no non-whitespace characters. */
  lemma FilterAllSpace(t: string, isSpace: char -> bool)
    requires forall i :: 0 <= i < |t| ==> isSpace(t[i])
    ensures Filter(t, NotSpace(isSpace)) == []
  {
    FilterNone(t, NotSpace(isSpace));
  }

  /** Filtering three pieces whose middle one filters to nothing. */
  lemma FilterAround(x: string, y: string, z: string, p: char -> bool)
    requires Filter(y, p) == []
    ensures Filter(x + (y + z), p) == Filter(x, p) + Filter(z, p)
  {
    FilterConcat(y, z, p);
    assert Filter(y + z, p) == Filter(z, p);
    FilterConcat(x, y + z, p);
  }

  /** Filtering three pieces whose outer ones filter to nothing. */
  lemma FilterBetween(x: string, y: string, z: string, p: char -> bool)
    requires Filter(x, p) == [] && Filter(z, p) == []
    ensures Filter(x + (y + z), p) == Filter(y, p)
  {
    FilterConcat(y, z, p);
    assert Filter(y + z, p) == Filter(y, p);
    FilterConcat(x, y + z, p);
  }

  /** A stretch of whitespace inside s adds nothing to its non-whitespace
      characters. */
  lemma FilterSkipsSpaces(s: string, isSpace: char -> bool, a: nat, b: nat)
    requires a <= b <= |s|
    requires forall i :: a <= i < b ==> isSpace(s[i])
    ensures Filter(s, NotSpace(isSpace)) == Filter(s[..a], NotSpace(isSpace)) + Filter(s[b..], NotSpace(isSpace))
  {
    var y := s[a..b];
    assert forall i :: 0 <= i < |y| ==> y[i] == s[a + i];
    FilterAllSpace(y, isSpace);
    SplitThree(s, a, b);
    FilterAround(s[..a], y, s[b..], NotSpace(isSpace));
  }

  /** Whitespace before a and from b on adds nothing to the non-whitespace
      characters of s[a..b]. */
  lemma FilterTrimmed(s: string, isSpace: char -> bool, a: nat, b: nat)
    requires a <= b <= |s|
    requires forall i :: 0 <= i < a ==> isSpace(s[i])
    requires forall i :: b <= i < |s| ==> isSpace(s[i])
    ensures Filter(s[a..b], NotSpace(isSpace)) == Filter(s, NotSpace(isSpace))
  {
    var x, z := s[..a], s[b..];
    assert forall i :: 0 <= i < |x| ==> x[i] == s[i];
    FilterAllSpace(x, isSpace);
    assert forall i :: 0 <= i < |z| ==> z[i] == s[b + i];
    FilterAllSpace(z, isSpace);
    SplitThree(s, a, b);
    FilterBetween(x, s[a..b], z, NotSpace(isSpace));
  }

  /** Removing whitespace before or after trimming gives the same characters. */
  lemma TrimKeepsNonSpace(s: string, isSpace: char -> bool)
    ensures Filter(Trim(s, isSpace), NotSpace(isSpace)) == Filter(s, NotSpace(isSpace))
  {
    TrimSlice(s, isSpace);
    var a := TrimLow(s, isSpace);
    FilterTrimmed(s, isSpace, a, TrimHigh(s, isSpace, a, |s|));
  }

  /** needle occurs in hay at position p. */
  predicate MatchAt(hay: string, needle: string, p: nat)
  {
    p + |needle| <= |hay| && hay[p..p + |needle|] == needle
  }

  /** The first position at or after `from` where needle occurs in hay. */
  function FirstMatch(hay: string, needle: string, from: nat): (r: Option<nat>)
    ensures r.Some? ==> from <= r.value && MatchAt(hay, needle, r.value)
    ensures forall p :: from <= p && (r.Some? ==> p < r.value) ==> !MatchAt(hay, needle, p)
    decreases |hay| - from
  {
    if from + |needle| > |hay| then None
    else if MatchAt(hay, needle, from) then Some(from)
    else FirstMatch(hay, needle, from + 1)
  }

  /** `hay.includes(needle)` / `needle in hay`. */
  predicate Contains(hay: string, needle: string)
  {
    FirstMatch(hay, needle, 0).Some?
  }

  /** Concatenation of a sequence of strings. */
  function Concat(parts: seq<string>): string
  {
    if parts == [] then [] else parts[0] + Concat(parts[1..])
  }

  /** `sep.join(parts)` / `parts.join(sep)`. */
  function Join(sep: string, parts: seq<string>): string
  {
    if parts == [] then []
    else if |parts| == 1 then parts[0]
    else parts[0] + sep + Join(sep, parts[1..])
  }

}
