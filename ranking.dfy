/** Key-phrase ranking: `extractKeyPhrases` (MyWebsite/script.js) and
    `_extract_key_phrases` (MyWebsite/server/app.py), which share their
    algorithm and stop-word list. The frequency table is an insertion-ordered
    association list, as a JavaScript `Map` and a Python `dict` are. */
module Ranking {
  import opened Seqs
  import opened Text
  import opened Tokenizer
  import opened Sorting

  /** The fifty-nine stop-words, the same in both sources. */
  predicate IsStopWord(w: string)
  {
    w == "the" || w == "a" || w == "an" || w == "in" || w == "on" || w == "and" ||
    w == "or" || w == "of" || w == "to" || w == "is" || w == "are" || w == "was" ||
    w == "were" || w == "be" || w == "as" || w == "for" || w == "with" || w == "that" ||
    w == "by" || w == "from" || w == "at" || w == "this" || w == "it" || w == "its" ||
    w == "their" || w == "there" || w == "which" || w == "we" || w == "you" ||
    w == "they" || w == "he" || w == "she" || w == "but" || w == "about" || w == "into" ||
    w == "than" || w == "then" || w == "so" || w == "such" || w == "can" || w == "could" ||
    w == "may" || w == "might" || w == "must" || w == "should" || w == "have" ||
    w == "has" || w == "had" || w == "not" || w == "no" || w == "yes" || w == "if" ||
    w == "when" || w == "where" || w == "who" || w == "whom" || w == "what" ||
    w == "why" || w == "how"
  }

  /** A word is counted unless it is a stop-word or shorter than 3 characters. */
  predicate Qualifies(w: string)
  {
    !IsStopWord(w) && |w| >= 3
  }

  /** One entry of the frequency table. */
  datatype Entry = Entry(word: string, count: nat)

  function Words(t: seq<Entry>): (r: seq<string>)
    ensures |r| == |t|
    ensures forall i :: 0 <= i < |t| ==> r[i] == t[i].word
  {
    seq(|t|, i requires 0 <= i < |t| => t[i].word)
  }

  /** `freq.set(w, (freq.get(w) || 0) + 1)`: an existing key keeps its place,
      a new key goes at the end. */
  function Bump(t: seq<Entry>, w: string): (r: seq<Entry>)
  {
    if t == [] then [Entry(w, 1)]
    else if t[0].word == w then [Entry(w, t[0].count + 1)] + t[1..]
    else [t[0]] + Bump(t[1..], w)
  }

  /** One turn of the counting loop. */
  function Step(t: seq<Entry>, w: string): seq<Entry>
  {
    if Qualifies(w) then Bump(t, w) else t
  }

  /** The frequency table after the counting loop has seen all of ws. */
  function Tally(ws: seq<string>): seq<Entry>
  {
    if ws == [] then [] else Step(Tally(ws[..|ws| - 1]), ws[|ws| - 1])
  }

  /** `freq.get(w, 0)`. */
  function Lookup(t: seq<Entry>, w: string): nat
  {
    if t == [] then 0 else if t[0].word == w then t[0].count else Lookup(t[1..], w)
  }

  /** The sort key `kv[1]` / `b[1] - a[1]`. */
  function CountKey(e: Entry): real
  {
    e.count as real
  }

  /** `Array.from(freq.entries()).sort(...).slice(0, limit).map(([w]) => w)`
      and `[w for w, _ in sorted(freq.items(), ...)[:limit]]`. */
  function RankedPhrases(text: string, limit: int): (r: seq<string>)
    ensures limit >= 0 ==> |r| <= limit
  {
    Words(Prefix(SortDesc(Tally(Tokens(text)), CountKey), limit))
  }

  // ---------------------------------------------------------------------------
  // The frequency table.

  lemma {:induction false} BumpFound(t: seq<Entry>, w: string, j: nat)
    requires j < |t| && t[j].word == w
    requires forall k :: 0 <= k < j ==> t[k].word != w
    ensures Bump(t, w) == t[j := Entry(w, t[j].count + 1)]
  {
    if j > 0 {
      BumpFound(t[1..], w, j - 1);
    }
  }

  lemma {:induction false} BumpAbsent(t: seq<Entry>, w: string)
    requires w !in Words(t)
    ensures Bump(t, w) == t + [Entry(w, 1)]
  {
    if t != [] {
      assert t[0].word == Words(t)[0];
      assert w !in Words(t[1..]) by {
        forall i | 0 <= i < |t| - 1 ensures Words(t[1..])[i] != w {
          assert Words(t[1..])[i] == Words(t)[i + 1];
        }
      }
      BumpAbsent(t[1..], w);
    }
  }

  /** Every entry holds a qualifying word of ws and its number of occurrences. */
  ghost predicate CountsOf(t: seq<Entry>, ws: seq<string>)
  {
    forall i :: 0 <= i < |t| ==>
      t[i].word in ws && Qualifies(t[i].word) && t[i].count == multiset(ws)[t[i].word]
  }

  /** Every qualifying word of ws is among vs. */
  ghost predicate Covers(vs: seq<string>, ws: seq<string>)
  {
    forall k :: 0 <= k < |ws| && Qualifies(ws[k]) ==> ws[k] in vs
  }

  /** vs are words of ws in order of first occurrence in ws. */
  ghost predicate FirstSeen(vs: seq<string>, ws: seq<string>)
  {
    && (forall i :: 0 <= i < |vs| ==> vs[i] in ws)
    && (forall i, j :: 0 <= i < j < |vs| ==> IndexOf(ws, vs[i]) < IndexOf(ws, vs[j]))
  }

  /** t is the frequency table of ws: one entry per distinct qualifying
      word, holding its number of occurrences, in order of first occurrence. */
  ghost predicate IsTallyOf(t: seq<Entry>, ws: seq<string>)
  {
    Distinct(Words(t)) && CountsOf(t, ws) && Covers(Words(t), ws) && FirstSeen(Words(t), ws)
  }

  lemma IndexOfAppend(ws: seq<string>, w: string, y: string)
    requires y in ws
    ensures IndexOf(ws + [w], y) == IndexOf(ws, y)
  {
    IndexOfPrefix(ws, w, y);
  }

  /** Reading one more word keeps the order of the words seen. */
  lemma FirstSeenAppend(vs: seq<string>, ws: seq<string>, w: string)
    requires FirstSeen(vs, ws)
    ensures FirstSeen(vs, ws + [w])
  {
    forall i | 0 <= i < |vs| ensures IndexOf(ws + [w], vs[i]) == IndexOf(ws, vs[i]) {
      IndexOfAppend(ws, w, vs[i]);
    }
  }

  /** A word never seen before goes last in order of first occurrence. */
  lemma FirstSeenNew(vs: seq<string>, ws: seq<string>, w: string)
    requires FirstSeen(vs, ws) && w !in ws
    ensures FirstSeen(vs + [w], ws + [w])
  {
    var ws' := ws + [w];
    var vs' := vs + [w];
    FirstSeenAppend(vs, ws, w);
    IndexOfUnique(ws', w, |ws|);
    forall i | 0 <= i < |vs| ensures IndexOf(ws', vs'[i]) < IndexOf(ws', w) {
      assert vs'[i] == vs[i] && vs[i] in ws;
      IndexOfAppend(ws, w, vs[i]);
    }
  }

  /** A word counted again: only its own count grows, by one. */
  lemma CountsBumped(t: seq<Entry>, ws: seq<string>, w: string, j: nat)
    requires CountsOf(t, ws) && Distinct(Words(t))
    requires j < |t| && t[j].word == w
    ensures CountsOf(t[j := Entry(w, t[j].count + 1)], ws + [w])
  {
    var ws' := ws + [w];
    var t' := t[j := Entry(w, t[j].count + 1)];
    assert multiset(ws') == multiset(ws) + multiset{w};
    forall i | 0 <= i < |t'|
      ensures t'[i].word in ws' && Qualifies(t'[i].word) && t'[i].count == multiset(ws')[t'[i].word]
    {
      if i != j {
        assert Words(t)[i] != Words(t)[j];
      }
    }
  }

  /** A word seen for the first time: it joins with count 1. */
  lemma CountsAdded(t: seq<Entry>, ws: seq<string>, w: string)
    requires CountsOf(t, ws) && Qualifies(w) && w !in ws
    ensures CountsOf(t + [Entry(w, 1)], ws + [w])
  {
    var ws' := ws + [w];
    var t' := t + [Entry(w, 1)];
    assert multiset(ws') == multiset(ws) + multiset{w};
    assert multiset(ws)[w] == 0;
    forall i | 0 <= i < |t'|
      ensures t'[i].word in ws' && Qualifies(t'[i].word) && t'[i].count == multiset(ws')[t'[i].word]
    {
      if i < |t| {
        assert t'[i] == t[i];
      }
    }
  }

  /** A word that does not qualify leaves every count as it was. */
  lemma CountsSkipped(t: seq<Entry>, ws: seq<string>, w: string)
    requires CountsOf(t, ws) && !Qualifies(w)
    ensures CountsOf(t, ws + [w])
  {
    var ws' := ws + [w];
    assert multiset(ws') == multiset(ws) + multiset{w};
    forall i | 0 <= i < |t| ensures t[i].word in ws' && t[i].count == multiset(ws')[t[i].word] {
    }
  }

  /** The covered words, read on with a word they hold or that does not qualify. */
  lemma CoversAppend(vs: seq<string>, ws: seq<string>, w: string)
    requires Covers(vs, ws) && (w in vs || !Qualifies(w))
    ensures Covers(vs, ws + [w])
  {
    forall k | 0 <= k < |ws| + 1 && Qualifies((ws + [w])[k]) ensures (ws + [w])[k] in vs {
      if k < |ws| {
        assert (ws + [w])[k] == ws[k];
      }
    }
  }

  /** Counting a qualifying word already in the table. */
  lemma StepFound(t: seq<Entry>, ws: seq<string>, w: string, j: nat)
    requires IsTallyOf(t, ws) && Qualifies(w)
    requires j < |t| && t[j].word == w
    ensures IsTallyOf(Step(t, w), ws + [w])
  {
    forall k | 0 <= k < j ensures t[k].word != w {
      assert Words(t)[k] != Words(t)[j];
    }
    BumpFound(t, w, j);
    var t' := t[j := Entry(w, t[j].count + 1)];
    assert Words(t') == Words(t);
    CountsBumped(t, ws, w, j);
    assert w in Words(t) by {
      assert Words(t)[j] == w;
    }
    CoversAppend(Words(t), ws, w);
    FirstSeenAppend(Words(t), ws, w);
  }

  /** A qualifying word missing from the table has not been seen. */
  lemma AbsentUnseen(t: seq<Entry>, ws: seq<string>, w: string)
    requires Covers(Words(t), ws) && Qualifies(w) && w !in Words(t)
    ensures w !in ws
  {
    forall k | 0 <= k < |ws| ensures ws[k] != w {
      if Qualifies(ws[k]) {
        assert ws[k] in Words(t);
      }
    }
  }

  /** Counting a qualifying word seen for the first time. */
  lemma StepNew(t: seq<Entry>, ws: seq<string>, w: string)
    requires IsTallyOf(t, ws) && Qualifies(w)
    requires w !in Words(t)
    ensures IsTallyOf(Step(t, w), ws + [w])
  {
    BumpAbsent(t, w);
    var t' := t + [Entry(w, 1)];
    var vs := Words(t);
    assert Words(t') == vs + [w];
    AbsentUnseen(t, ws, w);
    CountsAdded(t, ws, w);
    assert Covers(vs + [w], ws + [w]) by {
      forall k | 0 <= k < |ws| + 1 && Qualifies((ws + [w])[k]) ensures (ws + [w])[k] in vs + [w] {
        if k < |ws| {
          assert (ws + [w])[k] == ws[k] && ws[k] in vs;
        }
      }
    }
    FirstSeenNew(vs, ws, w);
  }

  /** A word that does not qualify changes nothing but the input seen. */
  lemma StepSkip(t: seq<Entry>, ws: seq<string>, w: string)
    requires IsTallyOf(t, ws) && !Qualifies(w)
    ensures IsTallyOf(Step(t, w), ws + [w])
  {
    CountsSkipped(t, ws, w);
    CoversAppend(Words(t), ws, w);
    FirstSeenAppend(Words(t), ws, w);
  }

  lemma StepKeepsTally(t: seq<Entry>, ws: seq<string>, w: string)
    requires IsTallyOf(t, ws)
    ensures IsTallyOf(Step(t, w), ws + [w])
  {
    if !Qualifies(w) {
      StepSkip(t, ws, w);
    } else if w in Words(t) {
      var j := IndexOf(Words(t), w);
      StepFound(t, ws, w, j);
    } else {
      StepNew(t, ws, w);
    }
  }

  /** The counting loop builds the frequency table of its input. */
  lemma {:induction false} TallyCorrect(ws: seq<string>)
    ensures IsTallyOf(Tally(ws), ws)
  {
    if ws != [] {
      var p := ws[..|ws| - 1];
      TallyCorrect(p);
      StepKeepsTally(Tally(p), p, ws[|ws| - 1]);
      assert p + [ws[|ws| - 1]] == ws;
    }
  }

  /** `freq.get(w, 0)` on the frequency table is the number of occurrences
      of w when w qualifies, and 0 otherwise. */
  lemma LookupTally(ws: seq<string>, w: string)
    ensures Lookup(Tally(ws), w) == if Qualifies(w) then multiset(ws)[w] else 0
  {
    var t := Tally(ws);
    TallyCorrect(ws);
    if w in Words(t) {
      var j := IndexOf(Words(t), w);
      LookupAt(t, w, j);
    } else {
      LookupAbsent(t, w);
      if Qualifies(w) {
        forall k | 0 <= k < |ws| ensures ws[k] != w {
          assert Qualifies(ws[k]) ==> ws[k] in Words(t);
        }
        assert w !in ws;
      }
    }
  }

  lemma {:induction false} LookupAt(t: seq<Entry>, w: string, j: nat)
    requires j < |t| && t[j].word == w
    requires forall k :: 0 <= k < j ==> t[k].word != w
    ensures Lookup(t, w) == t[j].count
  {
    if j > 0 {
      LookupAt(t[1..], w, j - 1);
    }
  }

  lemma {:induction false} LookupAbsent(t: seq<Entry>, w: string)
    requires w !in Words(t)
    ensures Lookup(t, w) == 0
  {
    if t != [] {
      assert t[0].word == Words(t)[0];
      assert w !in Words(t[1..]) by {
        forall i | 0 <= i < |t| - 1 ensures Words(t[1..])[i] != w {
          assert Words(t[1..])[i] == Words(t)[i + 1];
        }
      }
      LookupAbsent(t[1..], w);
    }
  }

  // ---------------------------------------------------------------------------
  // The ranked phrases.

  /** r is ordered by descending number of occurrences in ws, ties by first
      occurrence in ws. */
  ghost predicate ByCountThenFirstSeen(r: seq<string>, ws: seq<string>)
  {
    && (forall i :: 0 <= i < |r| ==> r[i] in ws)
    && (forall i, j :: 0 <= i < j < |r| ==>
          multiset(ws)[r[i]] > multiset(ws)[r[j]]
          || (multiset(ws)[r[i]] == multiset(ws)[r[j]] && IndexOf(ws, r[i]) < IndexOf(ws, r[j])))
  }

  /** No qualifying word left out of r occurs more often than a word in r. */
  ghost predicate MostFrequent(r: seq<string>, ws: seq<string>)
  {
    forall k, i :: 0 <= k < |ws| && 0 <= i < |r| && Qualifies(ws[k]) && ws[k] !in r ==>
      multiset(ws)[ws[k]] <= multiset(ws)[r[i]]
  }

  /** The distinct qualifying words of ws. */
  ghost function Vocabulary(ws: seq<string>): set<string>
  {
    set w | w in ws && Qualifies(w)
  }

  /** What an entry of the frequency table says about the words. */
  lemma EntryFacts(ws: seq<string>, e: Entry)
    requires e in Tally(ws)
    ensures e.word in ws && Qualifies(e.word) && e.count == multiset(ws)[e.word]
  {
    TallyCorrect(ws);
    var t := Tally(ws);
    var a := IndexOf(t, e);
  }

  lemma TallyDistinct(ws: seq<string>)
    ensures Distinct(Words(Tally(ws))) && Distinct(Tally(ws))
  {
    var t := Tally(ws);
    TallyCorrect(ws);
    forall i, j | 0 <= i < j < |t| ensures t[i] != t[j] {
      assert Words(t)[i] != Words(t)[j];
    }
  }

  /** Every qualifying word of ws has an entry. */
  lemma TallyComplete(ws: seq<string>)
    ensures forall k :: 0 <= k < |ws| && Qualifies(ws[k]) ==> ws[k] in Words(Tally(ws))
  {
    TallyCorrect(ws);
  }

  /** Entries are in order of first occurrence. */
  lemma TallyOrder(ws: seq<string>, a: nat, b: nat)
    requires a < b < |Tally(ws)|
    ensures Tally(ws)[a].word in ws && Tally(ws)[b].word in ws
    ensures IndexOf(ws, Tally(ws)[a].word) < IndexOf(ws, Tally(ws)[b].word)
  {
    TallyCorrect(ws);
  }

  /** The table sorted by count. */
  function SortedTally(ws: seq<string>): seq<Entry>
  {
    SortDesc(Tally(ws), CountKey)
  }

  /** The sort permutes the table and ranks it. */
  lemma SortedTallyRanked(ws: seq<string>)
    ensures multiset(SortedTally(ws)) == multiset(Tally(ws))
    ensures RankedBy(SortedTally(ws), Tally(ws), CountKey)
  {
    TallyDistinct(ws);
    SortDescPermutes(Tally(ws), CountKey);
    SortDescRanked(Tally(ws), CountKey);
  }

  lemma SortedTallyEntries(ws: seq<string>)
    ensures forall i :: 0 <= i < |SortedTally(ws)| ==>
      SortedTally(ws)[i].word in ws && Qualifies(SortedTally(ws)[i].word)
      && SortedTally(ws)[i].count == multiset(ws)[SortedTally(ws)[i].word]
  {
    var sorted := SortedTally(ws);
    SortedTallyRanked(ws);
    forall i | 0 <= i < |sorted|
      ensures sorted[i].word in ws && Qualifies(sorted[i].word)
        && sorted[i].count == multiset(ws)[sorted[i].word]
    {
      assert sorted[i] in multiset(sorted);
      EntryFacts(ws, sorted[i]);
    }
  }

  lemma SortedTallyDistinct(ws: seq<string>)
    ensures Distinct(Words(SortedTally(ws)))
  {
    var t := Tally(ws);
    var sorted := SortedTally(ws);
    SortedTallyRanked(ws);
    TallyDistinct(ws);
    RankedDistinct(sorted, t, CountKey);
    forall i, j | 0 <= i < j < |sorted| ensures Words(sorted)[i] != Words(sorted)[j] {
      assert sorted[i] in multiset(sorted) && sorted[j] in multiset(sorted);
      var a := IndexOf(t, sorted[i]);
      var b := IndexOf(t, sorted[j]);
      assert a != b;
      assert Words(t)[a] != Words(t)[b];
    }
  }

  lemma VocabularySize(ws: seq<string>)
    ensures |Tally(ws)| == |Vocabulary(ws)|
  {
    var t := Tally(ws);
    TallyCorrect(ws);
    DistinctCardinality(Words(t));
    assert (set w | w in Words(t)) == Vocabulary(ws) by {
      forall w | w in Vocabulary(ws) ensures w in Words(t) {
        var k := IndexOf(ws, w);
        assert ws[k] == w;
      }
      forall w | w in Words(t) ensures w in Vocabulary(ws) {
        var a := IndexOf(Words(t), w);
        assert t[a].word == w;
      }
    }
  }

  lemma SortedTallyOrdered(ws: seq<string>)
    ensures ByCountThenFirstSeen(Words(SortedTally(ws)), ws)
  {
    var t := Tally(ws);
    var sorted := SortedTally(ws);
    var r := Words(sorted);
    SortedTallyRanked(ws);
    SortedTallyEntries(ws);
    forall i, j | 0 <= i < j < |r|
      ensures multiset(ws)[r[i]] > multiset(ws)[r[j]]
          || (multiset(ws)[r[i]] == multiset(ws)[r[j]] && IndexOf(ws, r[i]) < IndexOf(ws, r[j]))
    {
      if CountKey(sorted[i]) == CountKey(sorted[j]) {
        var a := IndexOf(t, sorted[i]);
        var b := IndexOf(t, sorted[j]);
        assert a < b;
        TallyOrder(ws, a, b);
      }
    }
  }

  /** Every qualifying word of ws is among the sorted words. */
  lemma SortedTallyComplete(ws: seq<string>)
    ensures forall k :: 0 <= k < |ws| && Qualifies(ws[k]) ==> ws[k] in Words(SortedTally(ws))
  {
    var t := Tally(ws);
    var sorted := SortedTally(ws);
    TallyComplete(ws);
    SortedTallyRanked(ws);
    forall k | 0 <= k < |ws| && Qualifies(ws[k]) ensures ws[k] in Words(sorted) {
      var b := IndexOf(Words(t), ws[k]);
      assert t[b] in multiset(sorted);
      var c := IndexOf(sorted, t[b]);
      assert Words(sorted)[c] == ws[k];
    }
  }

  /** Order survives cutting the sequence short. */
  lemma PrefixOrdered(r: seq<string>, ws: seq<string>, n: nat)
    requires ByCountThenFirstSeen(r, ws) && n <= |r|
    ensures ByCountThenFirstSeen(r[..n], ws)
  {
    var p := r[..n];
    assert forall i :: 0 <= i < |p| ==> p[i] == r[i];
  }

  /** The first n of an ordered sequence holding every qualifying word are
      the most frequent ones. */
  lemma PrefixMostFrequent(r: seq<string>, ws: seq<string>, n: nat)
    requires ByCountThenFirstSeen(r, ws) && n <= |r|
    requires forall k :: 0 <= k < |ws| && Qualifies(ws[k]) ==> ws[k] in r
    ensures MostFrequent(r[..n], ws)
  {
    var p := r[..n];
    assert forall j :: 0 <= j < n ==> r[j] in p by {
      forall j | 0 <= j < n ensures r[j] in p {
        assert p[j] == r[j];
      }
    }
    forall k, i | 0 <= k < |ws| && 0 <= i < |p| && Qualifies(ws[k]) && ws[k] !in p
      ensures multiset(ws)[ws[k]] <= multiset(ws)[p[i]]
    {
      var c := IndexOf(r, ws[k]);
      assert c >= n;
      assert p[i] == r[i];
      assert multiset(ws)[r[i]] >= multiset(ws)[r[c]];
    }
  }

  /** The ranked phrases are the first words of the sorted table. */
  lemma RankedPhrasesPrefix(text: string, limit: int)
    ensures var ws := Tokens(text);
      RankedPhrases(text, limit) == Words(SortedTally(ws))[..SliceStop(|Tally(ws)|, limit)]
  {
  }

  /** As many ranked phrases as distinct qualifying words, cut at `limit`. */
  lemma KeyPhrasesCount(text: string, limit: int)
    ensures |RankedPhrases(text, limit)| == SliceStop(|Vocabulary(Tokens(text))|, limit)
  {
    VocabularySize(Tokens(text));
  }

  /** The ranked phrases are distinct qualifying words of the text. */
  lemma KeyPhrasesWords(text: string, limit: int)
    ensures var ws := Tokens(text); var r := RankedPhrases(text, limit);
      && Distinct(r)
      && (forall i :: 0 <= i < |r| ==> r[i] in ws && Qualifies(r[i]))
  {
    var ws := Tokens(text);
    var sorted := SortedTally(ws);
    var all := Words(sorted);
    var r := RankedPhrases(text, limit);
    RankedPhrasesPrefix(text, limit);
    SortedTallyEntries(ws);
    SortedTallyDistinct(ws);
    forall i | 0 <= i < |r| ensures r[i] in ws && Qualifies(r[i]) {
      assert r[i] == sorted[i].word;
    }
    forall i, j | 0 <= i < j < |r| ensures r[i] != r[j] {
      assert r[i] == all[i] && r[j] == all[j];
    }
  }

  /** The ranked phrases are ordered by count, ties by first occurrence, and
      no qualifying word left out occurs more often than one kept. */
  lemma KeyPhrasesOrder(text: string, limit: int)
    ensures var ws := Tokens(text); var r := RankedPhrases(text, limit);
      ByCountThenFirstSeen(r, ws) && MostFrequent(r, ws)
  {
    var ws := Tokens(text);
    var all := Words(SortedTally(ws));
    var n := SliceStop(|Tally(ws)|, limit);
    RankedPhrasesPrefix(text, limit);
    SortedTallyOrdered(ws);
    SortedTallyComplete(ws);
    PrefixOrdered(all, ws, n);
    PrefixMostFrequent(all, ws, n);
  }

  /** The ranked phrases of a text: as many as the text has distinct
      qualifying words, cut at `limit` (a negative limit drops that many from
      the end); each one is a word of the text that is not a stop-word and has
      at least 3 characters; no two are equal; they are ordered by descending
      count, ties in order of first occurrence; and no qualifying word left out
      occurs more often than one kept. */
  lemma KeyPhrasesSpec(text: string, limit: int)
    ensures var ws := Tokens(text); var r := RankedPhrases(text, limit);
      && |r| == SliceStop(|Vocabulary(ws)|, limit)
      && Distinct(r)
      && (forall i :: 0 <= i < |r| ==> r[i] in ws && Qualifies(r[i]))
      && ByCountThenFirstSeen(r, ws)
      && MostFrequent(r, ws)
  {
    KeyPhrasesCount(text, limit);
    KeyPhrasesWords(text, limit);
    KeyPhrasesOrder(text, limit);
  }

  // ---------------------------------------------------------------------------
  // The loops of the sources.

  /** The counting loop: skip stop-words and short words, otherwise raise the
      word's count or append it with count 1. The result is the frequency
      table of `words`. */
  method CountQualifying(words: seq<string>) returns (freq: seq<Entry>)
    ensures freq == Tally(words)
  {
    freq := [];
    for i := 0 to |words|
      invariant freq == Tally(words[..i])
    {
      var w := words[i];
      TallySnoc(words[..i], w);
      assert words[..i] + [w] == words[..i + 1];
      if !Qualifies(w) {
        continue;
      }
      var j := 0;
      while j < |freq| && freq[j].word != w
        invariant j <= |freq|
        invariant forall k :: 0 <= k < j ==> freq[k].word != w
      {
        j := j + 1;
      }
      if j < |freq| {
        BumpFound(freq, w, j);
        freq := freq[j := Entry(w, freq[j].count + 1)];
      } else {
        BumpAbsent(freq, w);
        freq := freq + [Entry(w, 1)];
      }
    }
    assert words[..|words|] == words;
  }

  /** `extractKeyPhrases(text, limit)` / `_extract_key_phrases(text, limit)`. */
  method ExtractKeyPhrases(text: string, limit: int) returns (phrases: seq<string>)
    ensures phrases == RankedPhrases(text, limit)
  {
    var words := Tokens(text);
    var freq := CountQualifying(words);
    phrases := Words(Prefix(SortDesc(freq, CountKey), limit));
  }

  // ---------------------------------------------------------------------------
  // An example.

  lemma ExampleScanTail(s: string)
    requires s == "the cat dog dog"
    ensures Scan(s, 8) == ["dog", "dog"]
  {
    ScanWord(s, 12, 15);
    assert s[12..15] == "dog";
    ScanSkip(s, 11);
    ScanWord(s, 8, 11);
    assert s[8..11] == "dog";
  }

  lemma ExampleScan(s: string)
    requires s == "the cat dog dog"
    ensures Scan(s, 0) == ["the", "cat", "dog", "dog"]
  {
    ExampleScanTail(s);
    ScanSkip(s, 7);
    ScanWord(s, 4, 7);
    assert s[4..7] == "cat";
    ScanSkip(s, 3);
    ScanWord(s, 0, 3);
    assert s[0..3] == "the";
  }

  lemma ExampleTokens(s: string)
    requires s == "the cat dog dog"
    ensures Tokens(s) == ["the", "cat", "dog", "dog"]
  {
    LowerIdentity(s);
    ExampleScan(s);
  }

  lemma TallySnoc(ws: seq<string>, w: string)
    ensures Tally(ws + [w]) == Step(Tally(ws), w)
  {
    assert (ws + [w])[..|ws|] == ws;
  }

  /** A qualifying word not yet in the table joins it at the end. */
  lemma TallyAddNew(ws: seq<string>, t: seq<Entry>, w: string)
    requires Tally(ws) == t && Qualifies(w)
    requires forall i :: 0 <= i < |t| ==> t[i].word != w
    ensures Tally(ws + [w]) == t + [Entry(w, 1)]
  {
    TallySnoc(ws, w);
    assert w !in Words(t);
    BumpAbsent(t, w);
  }

  /** A qualifying word held by the last entry only raises that count. */
  lemma TallyBumpLast(ws: seq<string>, t: seq<Entry>, w: string, c: nat)
    requires Tally(ws) == t + [Entry(w, c)] && Qualifies(w)
    requires forall i :: 0 <= i < |t| ==> t[i].word != w
    ensures Tally(ws + [w]) == t + [Entry(w, c + 1)]
  {
    TallySnoc(ws, w);
    BumpFound(t + [Entry(w, c)], w, |t|);
  }

  lemma ExampleQualifies(w: string)
    requires w == "cat" || w == "dog" || w == "bird"
    ensures Qualifies(w)
  {
  }

  lemma ExampleTally(the: string, cat: string, dog: string)
    requires the == "the" && cat == "cat" && dog == "dog"
    ensures Tally([the, cat, dog, dog]) == [Entry(cat, 1), Entry(dog, 2)]
  {
    ExampleQualifies(cat);
    ExampleQualifies(dog);
    assert IsStopWord(the);
    TallySnoc([], the);
    assert [] + [the] == [the];
    assert Tally([the]) == [];
    TallyAddNew([the], [], cat);
    assert [the] + [cat] == [the, cat];
    assert [] + [Entry(cat, 1)] == [Entry(cat, 1)];
    assert dog !in Words([Entry(cat, 1)]);
    TallyAddNew([the, cat], [Entry(cat, 1)], dog);
    assert [the, cat] + [dog] == [the, cat, dog];
    TallyBumpLast([the, cat, dog], [Entry(cat, 1)], dog, 1);
    assert [the, cat, dog] + [dog] == [the, cat, dog, dog];
  }

  lemma ExampleSort(cat: Entry, dog: Entry)
    requires cat.count == 1 && dog.count == 2
    ensures SortDesc([cat, dog], CountKey) == [dog, cat]
  {
    assert [cat, dog][..1] == [cat];
    assert SortDesc([cat], CountKey) == [cat] by {
      assert [cat][..0] == [];
    }
  }

  /** The counting, the sort and the cut at 2 on the four words. */
  lemma ExampleRanked(ws: seq<string>, the: string, cat: string, dog: string)
    requires the == "the" && cat == "cat" && dog == "dog"
    requires ws == [the, cat, dog, dog]
    ensures Words(Prefix(SortDesc(Tally(ws), CountKey), 2)) == [dog, cat]
  {
    var c, d := Entry(cat, 1), Entry(dog, 2);
    ExampleTally(the, cat, dog);
    ExampleSort(c, d);
    assert Prefix([d, c], 2) == [d, c];
    assert Words([d, c]) == [dog, cat];
  }

  /** `"the cat dog dog"` with limit 2 gives `["dog", "cat"]`: the stop-word
      is dropped and the more frequent word comes first. */
  lemma KeyPhrasesExample(text: string)
    requires text == "the cat dog dog"
    ensures RankedPhrases(text, 2) == ["dog", "cat"]
  {
    ExampleTokens(text);
    ExampleRanked(Tokens(text), "the", "cat", "dog");
  }

  // ---------------------------------------------------------------------------
  // The example `"cat cat dog dog dog bird"`.

  /** Two of a, then b: a counted twice, then b once. */
  lemma TallyExampleHead(a: string, b: string)
    requires Qualifies(a) && Qualifies(b) && a != b
    ensures Tally([a, a, b]) == [Entry(a, 2), Entry(b, 1)]
  {
    TallyAddNew([], [], a);
    assert [] + [a] == [a];
    TallyBumpLast([a], [], a, 1);
    assert [a] + [a] == [a, a];
    TallyAddNew([a, a], [Entry(a, 2)], b);
    assert [a, a] + [b] == [a, a, b];
  }

  /** Two of a, three of b, one of c: the counts in order of first occurrence. */
  lemma TallyExample(a: string, b: string, c: string)
    requires Qualifies(a) && Qualifies(b) && Qualifies(c)
    requires a != b && a != c && b != c
    ensures Tally([a, a, b, b, b, c]) == [Entry(a, 2), Entry(b, 3), Entry(c, 1)]
  {
    var ea := Entry(a, 2);
    assert Tally([a, a, b]) == [ea] + [Entry(b, 1)] by {
      TallyExampleHead(a, b);
    }
    assert Tally([a, a, b, b]) == [ea] + [Entry(b, 2)] by {
      TallyBumpLast([a, a, b], [ea], b, 1);
      assert [a, a, b] + [b] == [a, a, b, b];
    }
    assert Tally([a, a, b, b, b]) == [ea, Entry(b, 3)] by {
      TallyBumpLast([a, a, b, b], [ea], b, 2);
      assert [a, a, b, b] + [b] == [a, a, b, b, b];
    }
    TallyAddNew([a, a, b, b, b], [ea, Entry(b, 3)], c);
    assert [a, a, b, b, b] + [c] == [a, a, b, b, b, c];
  }

  /** Counts 2, 3, 1 sort to 3, 2, 1. */
  lemma SortExample(x: Entry, y: Entry, z: Entry)
    requires x.count == 2 && y.count == 3 && z.count == 1
    ensures SortDesc([x, y, z], CountKey) == [y, x, z]
  {
    assert [x, y, z][..2] == [x, y];
    assert [x, y][..1] == [x];
    assert SortDesc([x], CountKey) == [x] by {
      assert [x][..0] == [];
    }
    assert Insert(y, [x], CountKey) == [y, x];
    assert SortDesc([x, y], CountKey) == [y, x];
    assert [x][1..] == [];
    assert Insert(z, [x], CountKey) == [x, z];
    assert [y, x][1..] == [x];
    assert Insert(z, [y, x], CountKey) == [y, x, z];
  }

  /** The words of the first half of the text. */
  lemma CountScanFirst(s: string)
    requires s == "cat cat dog "
    ensures Scan(s, 0) == ["cat", "cat", "dog"]
  {
    ScanSkip(s, 11);
    ScanWord(s, 8, 11);
    assert s[8..11] == "dog";
    ScanSkip(s, 7);
    ScanWord(s, 4, 7);
    assert s[4..7] == "cat";
    ScanSkip(s, 3);
    ScanWord(s, 0, 3);
    assert s[0..3] == "cat";
  }

  /** The words of the second half of the text. */
  lemma CountScanSecond(s: string)
    requires s == "dog dog bird"
    ensures Scan(s, 0) == ["dog", "dog", "bird"]
  {
    ScanWord(s, 8, 12);
    assert s[8..12] == "bird";
    ScanSkip(s, 7);
    ScanWord(s, 4, 7);
    assert s[4..7] == "dog";
    ScanSkip(s, 3);
    ScanWord(s, 0, 3);
    assert s[0..3] == "dog";
  }

  /** The text is its two halves. */
  lemma CountHalves(s: string, a: string, b: string)
    requires s == "cat cat dog dog dog bird" && a == "cat cat dog " && b == "dog dog bird"
    ensures s == a + b
  {
  }

  /** The words of a text cut into two lower-case pieces, the first ending
      with a space. */
  lemma TokensGlue(s: string, a: string, b: string, x: seq<string>, y: seq<string>)
    requires s == a + b && a != [] && a[|a| - 1] == ' '
    requires Lower(a) == a && Lower(b) == b
    requires Scan(a, 0) == x && Scan(b, 0) == y
    ensures Tokens(s) == x + y
  {
    LowerAppend(a, b);
    ScanAppend(a, b, 0);
  }

  /** The six words of the text. */
  lemma CountTokens(s: string, cat: string, dog: string, bird: string)
    requires s == "cat cat dog dog dog bird"
    requires cat == "cat" && dog == "dog" && bird == "bird"
    ensures Tokens(s) == [cat, cat, dog, dog, dog, bird]
  {
    var a, b := "cat cat dog ", "dog dog bird";
    CountHalves(s, a, b);
    CountLowerFirst(a);
    CountLowerSecond(b);
    CountScanFirst(a);
    CountScanSecond(b);
    TokensGlue(s, a, b, [cat, cat, dog], [dog, dog, bird]);
    assert [cat, cat, dog] + [dog, dog, bird] == [cat, cat, dog, dog, dog, bird];
  }

  /** Both halves are already in lower case. */
  lemma CountLowerFirst(a: string)
    requires a == "cat cat dog "
    ensures Lower(a) == a
  {
    LowerIdentity(a);
  }

  lemma CountLowerSecond(b: string)
    requires b == "dog dog bird"
    ensures Lower(b) == b
  {
    LowerIdentity(b);
  }

  /** The frequency table of the six words. */
  lemma CountTally(ws: seq<string>, cat: string, dog: string, bird: string)
    requires cat == "cat" && dog == "dog" && bird == "bird"
    requires ws == [cat, cat, dog, dog, dog, bird]
    ensures Tally(ws) == [Entry(cat, 2), Entry(dog, 3), Entry(bird, 1)]
  {
    ExampleQualifies(cat);
    ExampleQualifies(dog);
    ExampleQualifies(bird);
    TallyExample(cat, dog, bird);
  }

  /** The counting, the sort and the cut at 2 on the six words. */
  lemma CountRanked(ws: seq<string>, cat: string, dog: string, bird: string)
    requires cat == "cat" && dog == "dog" && bird == "bird"
    requires ws == [cat, cat, dog, dog, dog, bird]
    ensures Words(Prefix(SortDesc(Tally(ws), CountKey), 2)) == [dog, cat]
  {
    var c, d, b := Entry(cat, 2), Entry(dog, 3), Entry(bird, 1);
    CountTally(ws, cat, dog, bird);
    SortExample(c, d, b);
    assert Prefix([d, c, b], 2) == [d, c];
    assert Words([d, c]) == [dog, cat];
  }

  /** `"cat cat dog dog dog bird"` with limit 2 gives `["dog", "cat"]`: the
      most frequent word first, then the next; `bird` is cut off. */
  lemma KeyPhrasesCountExample(text: string)
    requires text == "cat cat dog dog dog bird"
    ensures RankedPhrases(text, 2) == ["dog", "cat"]
  {
    CountTokens(text, "cat", "dog", "bird");
    CountRanked(Tokens(text), "cat", "dog", "bird");
  }
}
