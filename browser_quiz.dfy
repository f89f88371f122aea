/** `generateQuizFromText` of MyWebsite/script.js: one question for each of
    the first `count` ranked phrases (ranked with limit 20); the stem blanks
    the first occurrence of the key in the first sentence that mentions it,
    and the distractors are a window of three phrases sliding with the
    question number. */
module BrowserQuiz {
  import opened Seqs
  import opened Text
  import opened Sentences
  import opened Ranking
  import opened Shuffling
  import opened Decimal
  import opened Quiz

  /** The stem: the first sentence that mentions key, with the key blanked,
      or the template when there is none (an empty sentence counts as none,
      as it is falsy). */
  function Stem(sentences: seq<string>, key: string): (r: string)
    ensures r != []
  {
    var k := FirstMention(sentences, key);
    if k < |sentences| && sentences[k] != [] then ReplaceFirst(sentences[k], key) else Template(key)
  }

  /** `phrases.filter(p => p !== key).slice(i, i + 3)`. */
  function Distractors(phrases: seq<string>, key: string, i: nat): (r: seq<string>)
    ensures |r| <= 3
    ensures forall j :: 0 <= j < |r| ==> r[j] != key && r[j] in phrases
  {
    var rest := RemoveAll(phrases, key);
    WindowWithin(rest, i, i + 3);
    Window(rest, i, i + 3)
  }

  /** The i-th question is about phrases[i]: its options are the key and the
      distractors in some order. */
  ghost predicate IsQuestion(q: Question, i: nat, phrases: seq<string>, sentences: seq<string>)
    requires i < |phrases|
  {
    && q.id == QuestionId(i + 1)
    && q.answer == phrases[i]
    && q.question == Stem(sentences, phrases[i])
    && multiset(q.options) == multiset([phrases[i]] + Distractors(phrases, phrases[i], i))
  }

  /** Among distinct phrases, question i gets `min(3, max(0, n - 1 - i))`
      distractors, none of them the key, all of them ranked phrases. */
  lemma DistractorsSpec(phrases: seq<string>, i: nat)
    requires Distinct(phrases) && i < |phrases|
    ensures var d := Distractors(phrases, phrases[i], i);
      && |d| == Min(3, Max(0, |phrases| - 1 - i))
      && phrases[i] !in d
      && (forall j :: 0 <= j < |d| ==> d[j] in phrases)
  {
    RemoveAllOfDistinct(phrases, phrases[i]);
  }

  /** The answer is always among the options, which number
      `1 + min(3, max(0, n - 1 - i))`, at most 4. */
  lemma QuestionSpec(q: Question, i: nat, phrases: seq<string>, sentences: seq<string>)
    requires Distinct(phrases) && i < |phrases|
    requires IsQuestion(q, i, phrases, sentences)
    ensures q.answer in q.options
    ensures |q.options| == 1 + Min(3, Max(0, |phrases| - 1 - i)) <= 4
    ensures forall j :: 0 <= j < |q.options| ==> q.options[j] in phrases
  {
    DistractorsSpec(phrases, i);
    var all := [phrases[i]] + Distractors(phrases, phrases[i], i);
    assert q.answer in multiset(q.options) by {
      assert all[0] == q.answer;
    }
    assert |q.options| == |multiset(q.options)| == |all|;
    forall j | 0 <= j < |q.options| ensures q.options[j] in phrases {
      assert q.options[j] in multiset(all);
    }
  }

  /** When a sentence mentions the key, the stem is that first sentence with
      the key's first case-insensitive occurrence replaced by the blank. */
  lemma StemSpec(sentences: seq<string>, key: string, k: nat, p: nat)
    requires key != []
    requires k < |sentences| && Contains(Lower(sentences[k]), key)
    requires forall j :: 0 <= j < k ==> !Contains(Lower(sentences[j]), key)
    requires MatchesAt(sentences[k], key, p) && forall q :: 0 <= q < p ==> !MatchesAt(sentences[k], key, q)
    ensures p + |key| <= |sentences[k]|
    ensures Stem(sentences, key) == sentences[k][..p] + Blank + sentences[k][p + |key|..]
  {
    var m := FirstMention(sentences, key);
    assert m == k by {
      assert !(m < k);
    }
    ReplaceFirstAt(sentences[k], key, p);
    assert sentences[k] != [];
  }

  /** With no mention in any sentence, the stem is the template. */
  lemma StemTemplate(sentences: seq<string>, key: string)
    requires forall j :: 0 <= j < |sentences| ==> !Contains(Lower(sentences[j]), key)
    ensures Stem(sentences, key) == Template(key)
  {
  }

  /** `generateQuizFromText(text, count)`: `min(count, n)` questions (none
      for a negative count) over the n phrases ranked with limit 20; question
      i is about phrases[i]. Each call to `shuffle` takes its draws from
      `rand`, starting at `draw`; `next` is the first draw not taken. */
  method GenerateQuiz(text: string, count: int, rand: nat -> nat, draw: nat)
    returns (questions: seq<Question>, next: nat)
    ensures var phrases := RankedPhrases(text, 20);
      && |questions| == Max(0, Min(count, |phrases|))
      && forall i :: 0 <= i < |questions| ==> IsQuestion(questions[i], i, phrases, SplitSentences(text))
  {
    var sentences := SplitSentences(text);
    var phrases := ExtractKeyPhrases(text, 20);
    questions := [];
    next := draw;
    var i := 0;
    while i < Min(count, |phrases|)
      invariant 0 <= i <= Max(0, Min(count, |phrases|))
      invariant |questions| == i
      invariant forall k :: 0 <= k < i ==> IsQuestion(questions[k], k, phrases, sentences)
    {
      var q;
      q, next := MakeQuestion(phrases, sentences, i, rand, next);
      AppendQuestion(questions, q, phrases, sentences);
      questions := questions + [q];
      i := i + 1;
    }
  }

  /** The body of the loop: the question about phrases[i]. */
  method MakeQuestion(phrases: seq<string>, sentences: seq<string>, i: nat, rand: nat -> nat, draw: nat)
    returns (q: Question, next: nat)
    requires i < |phrases|
    ensures IsQuestion(q, i, phrases, sentences)
  {
    var key := phrases[i];
    var questionStem := Stem(sentences, key);
    var distractors := Distractors(phrases, key, i);
    assert |distractors| <= 3;
    var shuffled;
    shuffled, next := Shuffle([key] + distractors, rand, draw);
    var options := Prefix(shuffled, 4);
    assert options == shuffled;
    q := Question(QuestionId(i + 1), questionStem, options, key);
  }

  /** One more question keeps the questions in step with the phrases. */
  lemma AppendQuestion(questions: seq<Question>, q: Question, phrases: seq<string>, sentences: seq<string>)
    requires |questions| < |phrases|
    requires forall k :: 0 <= k < |questions| ==> IsQuestion(questions[k], k, phrases, sentences)
    requires IsQuestion(q, |questions|, phrases, sentences)
    ensures forall k :: 0 <= k < |questions| + 1 ==> IsQuestion((questions + [q])[k], k, phrases, sentences)
  {
    forall k | 0 <= k < |questions| + 1 ensures IsQuestion((questions + [q])[k], k, phrases, sentences) {
      if k < |questions| {
        assert (questions + [q])[k] == questions[k];
      }
    }
  }

  /** Questions built this way over distinct phrases: every answer is among
      its options, the options number `1 + min(3, max(0, n - 1 - i))`, and
      answers and ids are pairwise distinct. */
  lemma QuestionsSpec(questions: seq<Question>, phrases: seq<string>, sentences: seq<string>)
    requires Distinct(phrases) && |questions| <= |phrases|
    requires forall i :: 0 <= i < |questions| ==> IsQuestion(questions[i], i, phrases, sentences)
    ensures forall i :: 0 <= i < |questions| ==>
      questions[i].answer in questions[i].options
      && |questions[i].options| == 1 + Min(3, Max(0, |phrases| - 1 - i))
    ensures forall i, j :: 0 <= i < j < |questions| ==>
      questions[i].answer != questions[j].answer && questions[i].id != questions[j].id
  {
    forall i | 0 <= i < |questions|
      ensures questions[i].answer in questions[i].options
      ensures |questions[i].options| == 1 + Min(3, Max(0, |phrases| - 1 - i))
    {
      QuestionSpec(questions[i], i, phrases, sentences);
    }
    forall i, j | 0 <= i < j < |questions|
      ensures questions[i].answer != questions[j].answer && questions[i].id != questions[j].id
    {
      QuestionsApart(questions[i], questions[j], i, j, phrases, sentences);
    }
  }

  /** Two questions at different places have different answers and ids. */
  lemma QuestionsApart(qi: Question, qj: Question, i: nat, j: nat, phrases: seq<string>, sentences: seq<string>)
    requires Distinct(phrases) && i < j < |phrases|
    requires IsQuestion(qi, i, phrases, sentences) && IsQuestion(qj, j, phrases, sentences)
    ensures qi.answer != qj.answer && qi.id != qj.id
  {
    assert phrases[i] != phrases[j];
    if qi.id == qj.id {
      QuestionIdInjective(i + 1, j + 1);
    }
  }

  /** The browser's quiz on a text: the ranked phrases are distinct, so the
      facts above hold for every quiz `GenerateQuiz` returns. */
  lemma QuizSpec(text: string, questions: seq<Question>)
    requires |questions| <= |RankedPhrases(text, 20)|
    requires forall i :: 0 <= i < |questions| ==>
      IsQuestion(questions[i], i, RankedPhrases(text, 20), SplitSentences(text))
    ensures forall i :: 0 <= i < |questions| ==>
      questions[i].answer in questions[i].options
      && |questions[i].options| == 1 + Min(3, Max(0, |RankedPhrases(text, 20)| - 1 - i))
    ensures forall i, j :: 0 <= i < j < |questions| ==>
      questions[i].answer != questions[j].answer && questions[i].id != questions[j].id
  {
    KeyPhrasesWords(text, 20);
    QuestionsSpec(questions, RankedPhrases(text, 20), SplitSentences(text));
  }
}
