/** `_summarize` of MyWebsite/server/app.py: score every sentence by the
    frequencies of its words, keep the n best (ties to the earlier
    sentence), and join them in their original order. The score
    `total / (len(sw) + 1e-6)` is floating point; it is a parameter here,
    `ratio(total, count)`, and only the order of the scores matters. */
module Summary {
  import opened Seqs
  import opened Text
  import opened Sentences
  import opened Tokenizer
  import opened Ranking
  import opened Sorting

  // ---------------------------------------------------------------------------
  // Scores.

  /** `sum(freq.get(w, 0) for w in ws)`. */
  function SumCounts(freq: seq<Entry>, ws: seq<string>): nat
  {
    if ws == [] then 0 else SumCounts(freq, ws[..|ws| - 1]) + Lookup(freq, ws[|ws| - 1])
  }

  /** The weight of ws in a text whose words are all: each qualifying word of
      ws counts as often as it occurs in the text, any other word as nothing. */
  ghost function Weight(all: seq<string>, ws: seq<string>): nat
  {
    if ws == [] then 0
    else
      var w := ws[|ws| - 1];
      Weight(all, ws[..|ws| - 1]) + (if Qualifies(w) then multiset(all)[w] else 0)
  }

  /** Summing the frequency table over a sentence's words is its weight. */
  lemma {:induction false} SumCountsTally(all: seq<string>, ws: seq<string>)
    ensures SumCounts(Tally(all), ws) == Weight(all, ws)
  {
    if ws != [] {
      SumCountsTally(all, ws[..|ws| - 1]);
      LookupTally(all, ws[|ws| - 1]);
    }
  }

  /** The score of one sentence. */
  function SentenceScore(freq: seq<Entry>, sentence: string, ratio: (nat, nat) -> real): real
  {
    var sw := Tokens(sentence);
    ratio(SumCounts(freq, sw), |sw|)
  }

  /** `scores`: one score per sentence. */
  function Scores(sentences: seq<string>, freq: seq<Entry>, ratio: (nat, nat) -> real): (r: seq<real>)
    ensures |r| == |sentences|
  {
    seq(|sentences|, i requires 0 <= i < |sentences| => SentenceScore(freq, sentences[i], ratio))
  }

  // ---------------------------------------------------------------------------
  // Selection.

  /** `key=lambda i: scores[i]`. */
  function ScoreKey(scores: seq<real>): nat -> real
  {
    (i: nat) => if i < |scores| then scores[i] else 0.0
  }

  /** The key that puts indices in ascending order when sorted descending. */
  function PositionKey(): nat -> real
  {
    (i: nat) => -(i as real)
  }

  /** `min(max_sentences, max(1, int(len(sentences) * 0.2)))`. */
  function SelectCount(count: nat, maxSentences: int): int
  {
    Min(maxSentences, Max(1, count / 5))
  }

  /** `sorted(range(len(scores)), key=lambda i: scores[i], reverse=True)`. */
  function Ranked(scores: seq<real>): seq<nat>
  {
    SortDesc(Range(|scores|), ScoreKey(scores))
  }

  /** `sorted(sorted(range(len(scores)), key=..., reverse=True)[:n])`. */
  function SelectedIndices(scores: seq<real>, n: int): seq<nat>
  {
    SortDesc(Prefix(Ranked(scores), n), PositionKey())
  }

  /** In `range(n)` every index stands at its own position. */
  lemma RangeIndex(n: nat, x: nat)
    requires x < n
    ensures x in Range(n) && IndexOf(Range(n), x) == x
  {
    IndexOfUnique(Range(n), x, x);
  }

  /** The sort by score ranks the sentence indices: each once, by descending
      score, ties by position. */
  lemma RankedIndices(scores: seq<real>)
    ensures multiset(Ranked(scores)) == multiset(Range(|scores|))
    ensures Distinct(Ranked(scores))
    ensures forall i :: 0 <= i < |Ranked(scores)| ==> Ranked(scores)[i] < |scores|
    ensures forall p, q :: 0 <= p < q < |Ranked(scores)| ==>
      scores[Ranked(scores)[p]] > scores[Ranked(scores)[q]]
      || (scores[Ranked(scores)[p]] == scores[Ranked(scores)[q]] && Ranked(scores)[p] < Ranked(scores)[q])
  {
    var s := Range(|scores|);
    var key := ScoreKey(scores);
    var ranked := Ranked(scores);
    SortDescRanked(s, key);
    SortDescPermutes(s, key);
    RankedDistinct<nat>(ranked, s, key);
    forall i | 0 <= i < |ranked| ensures ranked[i] < |scores| {
      assert ranked[i] in multiset(ranked);
    }
    forall p, q | 0 <= p < q < |ranked|
      ensures scores[ranked[p]] > scores[ranked[q]]
        || (scores[ranked[p]] == scores[ranked[q]] && ranked[p] < ranked[q])
    {
      RangeIndex(|scores|, ranked[p]);
      RangeIndex(|scores|, ranked[q]);
    }
  }

  /** Re-sorting the chosen indices puts them in ascending order. */
  lemma AscendingIndices(chosen: seq<nat>)
    requires Distinct(chosen)
    ensures var r := SortDesc(chosen, PositionKey());
      && multiset(r) == multiset(chosen)
      && forall i, j :: 0 <= i < j < |r| ==> r[i] < r[j]
  {
    var r := SortDesc(chosen, PositionKey());
    SortDescRanked(chosen, PositionKey());
    SortDescPermutes(chosen, PositionKey());
    RankedDistinct<nat>(r, chosen, PositionKey());
  }

  /** A sentence among the first m ranked beats every sentence after them. */
  lemma ChosenBeatsRest(scores: seq<real>, m: nat, x: nat, j: nat)
    requires m <= |scores| && j < |scores|
    requires x in Ranked(scores)[..m] && j !in Ranked(scores)[..m]
    ensures x < |scores|
    ensures scores[x] > scores[j] || (scores[x] == scores[j] && x < j)
  {
    var ranked := Ranked(scores);
    RankedIndices(scores);
    var p := IndexOf(ranked[..m], x);
    assert ranked[p] == x;
    RangeIndex(|scores|, j);
    assert j in multiset(ranked);
    var q := IndexOf(ranked, j);
    forall k | 0 <= k < m ensures ranked[k] != j {
      assert ranked[..m][k] == ranked[k];
    }
  }

  /** The selection re-sorts the first `SliceStop(|scores|, n)` ranked
      indices into ascending order. */
  lemma SelectedChosen(scores: seq<real>, n: int)
    ensures var m := SliceStop(|scores|, n); var r := SelectedIndices(scores, n);
      && m <= |Ranked(scores)|
      && multiset(r) == multiset(Ranked(scores)[..m])
      && forall i, j :: 0 <= i < j < |r| ==> r[i] < r[j]
  {
    var ranked := Ranked(scores);
    RankedIndices(scores);
    var m := SliceStop(|scores|, n);
    var chosen := ranked[..m];
    assert Prefix(ranked, n) == chosen;
    assert Distinct(chosen) by {
      forall i, j | 0 <= i < j < |chosen| ensures chosen[i] != chosen[j] {
        assert chosen[i] == ranked[i] && chosen[j] == ranked[j];
      }
    }
    AscendingIndices(chosen);
  }

  /** Every selected index is an index of a sentence. */
  lemma SelectedInRange(scores: seq<real>, n: int)
    ensures forall i :: 0 <= i < |SelectedIndices(scores, n)| ==> SelectedIndices(scores, n)[i] < |scores|
  {
    var r := SelectedIndices(scores, n);
    var m := SliceStop(|scores|, n);
    SelectedChosen(scores, n);
    RankedIndices(scores);
    forall i | 0 <= i < |r| ensures r[i] < |scores| {
      assert r[i] in multiset(Ranked(scores)[..m]);
      assert r[i] in Ranked(scores);
    }
  }

  /** The selection: `min(n, count)` sentence indices (fewer by -n for a
      negative n, as `[:n]` does), in ascending order, and none of the
      sentences left out scores higher than a chosen one, or the same while
      coming earlier. */
  lemma SelectedIndicesSpec(scores: seq<real>, n: int)
    ensures |SelectedIndices(scores, n)| == SliceStop(|scores|, n)
    ensures forall i :: 0 <= i < |SelectedIndices(scores, n)| ==> SelectedIndices(scores, n)[i] < |scores|
    ensures forall i, j :: 0 <= i < j < |SelectedIndices(scores, n)| ==>
      SelectedIndices(scores, n)[i] < SelectedIndices(scores, n)[j]
    ensures forall i, j :: 0 <= i < |SelectedIndices(scores, n)| && 0 <= j < |scores| && j !in SelectedIndices(scores, n) ==>
      var x := SelectedIndices(scores, n)[i];
      scores[x] > scores[j] || (scores[x] == scores[j] && x < j)
  {
    var r := SelectedIndices(scores, n);
    var m := SliceStop(|scores|, n);
    SelectedChosen(scores, n);
    SelectedInRange(scores, n);
    var chosen := Ranked(scores)[..m];
    assert |r| == |multiset(r)| == |multiset(chosen)| == m;
    forall i, j | 0 <= i < |r| && 0 <= j < |scores| && j !in r
      ensures scores[r[i]] > scores[j] || (scores[r[i]] == scores[j] && r[i] < j)
    {
      assert r[i] in multiset(chosen);
      assert j !in multiset(chosen);
      ChosenBeatsRest(scores, m, r[i], j);
    }
  }

  /** `" ".join(sentences[i] for i in idxs)`'s sentences. */
  function Pick(sentences: seq<string>, idxs: seq<nat>): (r: seq<string>)
    requires forall i :: 0 <= i < |idxs| ==> idxs[i] < |sentences|
    ensures |r| == |idxs|
    ensures forall i :: 0 <= i < |idxs| ==> r[i] == sentences[idxs[i]]
  {
    seq(|idxs|, i requires 0 <= i < |idxs| => sentences[idxs[i]])
  }

  /** Which sentences `_summarize` keeps, by index. */
  function Selection(text: string, maxSentences: int, ratio: (nat, nat) -> real): (r: seq<nat>)
    ensures forall i :: 0 <= i < |r| ==> r[i] < |SplitSentencesPy(text)|
  {
    var sentences := SplitSentencesPy(text);
    SelectedInRange(Scores(sentences, Tally(Tokens(text)), ratio), SelectCount(|sentences|, maxSentences));
    SelectedIndices(Scores(sentences, Tally(Tokens(text)), ratio), SelectCount(|sentences|, maxSentences))
  }

  /** `_summarize(text, max_sentences)`. */
  function SummaryOf(text: string, maxSentences: int, ratio: (nat, nat) -> real): string
  {
    var sentences := SplitSentencesPy(text);
    if sentences == [] then ""
    else
      var scores := Scores(sentences, Tally(Tokens(text)), ratio);
      SelectedInRange(scores, SelectCount(|sentences|, maxSentences));
      Join(" ", Pick(sentences, Selection(text, maxSentences, ratio)))
  }

  /** With no sentence the summary is empty. Otherwise it is the chosen
      sentences joined by spaces: for a positive maximum
      `min(max_sentences, max(1, len(sentences) // 5))` of them, in their
      original order, each scoring at least as high as any sentence left
      out, and higher than those left out before it. */
  lemma SummarySpec(text: string, maxSentences: int, ratio: (nat, nat) -> real)
    ensures SplitSentencesPy(text) == [] ==> SummaryOf(text, maxSentences, ratio) == ""
    ensures var sentences := SplitSentencesPy(text);
      var scores := Scores(sentences, Tally(Tokens(text)), ratio);
      var top := Selection(text, maxSentences, ratio);
      && (sentences != [] && maxSentences >= 1 ==>
            |top| == Min(maxSentences, Max(1, |sentences| / 5)) <= |sentences|)
      && (forall i :: 0 <= i < |top| ==> top[i] < |sentences|)
      && (forall i, j :: 0 <= i < j < |top| ==> top[i] < top[j])
      && (forall i, j :: 0 <= i < |top| && 0 <= j < |sentences| && j !in top ==>
            scores[top[i]] > scores[j] || (scores[top[i]] == scores[j] && top[i] < j))
      && (sentences != [] ==>
            SummaryOf(text, maxSentences, ratio) == Join(" ", Pick(sentences, top)))
  {
    var sentences := SplitSentencesPy(text);
    var scores := Scores(sentences, Tally(Tokens(text)), ratio);
    SelectedIndicesSpec(scores, SelectCount(|sentences|, maxSentences));
  }

  /** A non-empty summary joins the selected sentences. */
  lemma SummaryPicks(text: string, maxSentences: int, ratio: (nat, nat) -> real)
    ensures forall i :: 0 <= i < |Selection(text, maxSentences, ratio)| ==>
      Selection(text, maxSentences, ratio)[i] < |SplitSentencesPy(text)|
    ensures SplitSentencesPy(text) != [] ==>
      SummaryOf(text, maxSentences, ratio)
      == Join(" ", Pick(SplitSentencesPy(text), Selection(text, maxSentences, ratio)))
  {
    var sentences := SplitSentencesPy(text);
    SelectedIndicesSpec(Scores(sentences, Tally(Tokens(text)), ratio), SelectCount(|sentences|, maxSentences));
  }

  /** The scoring loop: one score per sentence, in order. */
  method ScoreSentences(sentences: seq<string>, freq: seq<Entry>, ratio: (nat, nat) -> real)
    returns (scores: seq<real>)
    ensures scores == Scores(sentences, freq, ratio)
  {
    scores := [];
    for k := 0 to |sentences|
      invariant |scores| == k
      invariant forall i :: 0 <= i < k ==> scores[i] == SentenceScore(freq, sentences[i], ratio)
    {
      var sw := Tokens(sentences[k]);
      var score := ratio(SumCounts(freq, sw), |sw|);
      scores := scores + [score];
    }
  }

  /** The scoring and the selection. */
  method Summarize(text: string, maxSentences: int, ratio: (nat, nat) -> real) returns (summary: string)
    ensures summary == SummaryOf(text, maxSentences, ratio)
  {
    var sentences := SplitSentencesPy(text);
    if sentences == [] {
      return "";
    }
    var freq := CountQualifying(Tokens(text));
    var scores := ScoreSentences(sentences, freq, ratio);
    var n := Min(maxSentences, Max(1, |sentences| / 5));
    var ranked := SortDesc(Range(|sentences|), ScoreKey(scores));
    var top := SortDesc(Prefix(ranked, n), PositionKey());
    SummaryPicks(text, maxSentences, ratio);
    summary := Join(" ", Pick(sentences, top));
  }
}
