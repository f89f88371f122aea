/** `_generate_quiz` of MyWebsite/server/app.py: one question for each
    ranked phrase (ranked with limit 24) not asked before, at most
    `num_questions` of them. The stem blanks every occurrence of the key in
    the first sentence that mentions it, and the options are the key and
    the first three other phrases, shuffled. */
module ServerQuiz {
  import opened Seqs
  import opened Text
  import opened Sentences
  import opened Tokenizer
  import opened Ranking
  import opened Shuffling
  import opened Decimal
  import opened Quiz

  /** The stem: the first sentence that mentions key with every occurrence
      blanked, or the template when there is none. */
  function Stem(sentences: seq<string>, key: string): (r: string)
    requires key != []
    ensures r != []
  {
    var k := FirstMention(sentences, key);
    if k < |sentences| && sentences[k] != [] then ReplaceAll(sentences[k], key) else Template(key)
  }

  /** `([correct] + [p for p in phrases if p != key][:8])[:4]`. */
  function Options(phrases: seq<string>, key: string): (r: seq<string>)
    ensures 1 <= |r| <= 4 && r[0] == key
  {
    Prefix([key] + Prefix(RemoveAll(phrases, key), 8), 4)
  }

  /** The question for the phrase at index i (1-based in its id). */
  ghost predicate IsQuestion(q: Question, i: nat, phrases: seq<string>, sentences: seq<string>)
    requires i < |phrases|
  {
    && phrases[i] != []
    && q.id == QuestionId(i + 1)
    && q.answer == phrases[i]
    && q.question == Stem(sentences, phrases[i])
    && multiset(q.options) == multiset(Options(phrases, phrases[i]))
  }

  /** Among distinct phrases the options are the key followed by the first
      three phrases other than it, `min(4, n)` of them. */
  lemma OptionsShape(phrases: seq<string>, key: string)
    requires Distinct(phrases) && key in phrases
    ensures Options(phrases, key) == [key] + Prefix(RemoveAll(phrases, key), 3)
    ensures |Options(phrases, key)| == Min(4, |phrases|)
  {
    RemoveAllOfDistinct(phrases, key);
  }

  /** The options are distinct ranked phrases, the key first. */
  lemma OptionsSpec(phrases: seq<string>, key: string)
    requires Distinct(phrases) && key in phrases
    ensures var o := Options(phrases, key);
      && o[0] == key
      && Distinct(o)
      && (forall j :: 0 <= j < |o| ==> o[j] in phrases)
  {
    OptionsShape(phrases, key);
    RemoveAllOfDistinct(phrases, key);
    var others := RemoveAll(phrases, key);
    var o := Options(phrases, key);
    forall j | 1 <= j < |o| ensures o[j] == others[j - 1] && o[j] != key {
    }
    forall a, b | 0 <= a < b < |o| ensures o[a] != o[b] {
      if a > 0 {
        assert o[a] == others[a - 1] && o[b] == others[b - 1];
      }
    }
  }

  /** The options of a question are its answer and the first three other
      phrases, in some order. */
  lemma QuestionSpec(q: Question, i: nat, phrases: seq<string>, sentences: seq<string>)
    requires Distinct(phrases) && i < |phrases|
    requires IsQuestion(q, i, phrases, sentences)
    ensures q.answer in q.options
    ensures |q.options| == Min(4, |phrases|)
    ensures multiset(q.options) == multiset([q.answer] + Prefix(RemoveAll(phrases, q.answer), 3))
  {
    OptionsShape(phrases, phrases[i]);
    assert q.answer in multiset(q.options);
    assert |q.options| == |multiset(q.options)|;
  }

  /** When a sentence mentions the key (a ranked word, which has no `_`),
      the stem is that first sentence with every occurrence blanked, and no
      occurrence of the key is left in it. */
  lemma StemSpec(sentences: seq<string>, key: string, k: nat)
    requires key != [] && forall i :: 0 <= i < |key| ==> key[i] != '_'
    requires k < |sentences| && Contains(Lower(sentences[k]), key)
    requires forall j :: 0 <= j < k ==> !Contains(Lower(sentences[j]), key)
    ensures Stem(sentences, key) == ReplaceAll(sentences[k], key)
    ensures forall q :: 0 <= q ==> !MatchesAt(Stem(sentences, key), key, q)
  {
    var m := FirstMention(sentences, key);
    assert m == k by {
      assert !(m < k);
    }
    var r := FirstMatch(Lower(sentences[k]), key, 0);
    assert MatchAt(Lower(sentences[k]), key, r.value);
    assert |sentences[k]| == |Lower(sentences[k])| > 0;
    ReplaceAllRemovesKey(sentences[k], key);
  }

  /** With no mention in any sentence, the stem is the template. */
  lemma StemTemplate(sentences: seq<string>, key: string)
    requires key != []
    requires forall j :: 0 <= j < |sentences| ==> !Contains(Lower(sentences[j]), key)
    ensures Stem(sentences, key) == Template(key)
  {
  }

  /** A ranked word is a token with at least three characters, none of them `_`. */
  lemma RankedWordShape(text: string, limit: int, i: nat)
    requires i < |RankedPhrases(text, limit)|
    ensures var w := RankedPhrases(text, limit)[i];
      |w| >= 3 && forall j :: 0 <= j < |w| ==> w[j] != '_'
  {
    KeyPhrasesWords(text, limit);
    var ws := Tokens(text);
    var w := RankedPhrases(text, limit)[i];
    assert w in ws && Qualifies(w);
    var k := IndexOf(ws, w);
    assert IsToken(ws[k]);
    forall j | 0 <= j < |w| ensures w[j] != '_' {
      assert j == 0 ==> IsTokenStart(w[j]);
      assert j > 0 ==> IsTokenChar(w[j]);
    }
  }

  /** What the quiz loop needs of the ranked phrases: they are distinct
      words of at least three characters with no `_` in them. */
  lemma RankedPhrasesFacts(text: string, limit: int)
    ensures var r := RankedPhrases(text, limit);
      && Distinct(r)
      && forall i :: 0 <= i < |r| ==> |r[i]| >= 3 && forall j :: 0 <= j < |r[i]| ==> r[i][j] != '_'
  {
    KeyPhrasesWords(text, limit);
    forall i | 0 <= i < |RankedPhrases(text, limit)|
      ensures var w := RankedPhrases(text, limit)[i];
        |w| >= 3 && forall j :: 0 <= j < |w| ==> w[j] != '_'
    {
      RankedWordShape(text, limit, i);
    }
  }

  /** `_generate_quiz(text, num_questions)`: `min(max(0, num_questions), n)`
      questions over the n phrases ranked with limit 24; question i is about
      phrases[i]. Each call to `shuffle` takes its draws from `rand`, starting
      at `draw`; `next` is the first draw not taken. */
  method GenerateQuiz(text: string, numQuestions: int, rand: nat -> nat, draw: nat)
    returns (questions: seq<Question>, next: nat)
    ensures var phrases := RankedPhrases(text, 24);
      && |questions| == Min(Max(0, numQuestions), |phrases|)
      && forall i :: 0 <= i < |questions| ==> IsQuestion(questions[i], i, phrases, SplitSentencesPy(text))
  {
    var sentences := SplitSentencesPy(text);
    var phrases := ExtractKeyPhrases(text, 24);
    RankedPhrasesFacts(text, 24);
    questions := [];
    next := draw;
    var used: set<string> := {};
    var i := 0;
    while i < |phrases|
      invariant 0 <= i <= |phrases| && i <= Max(0, numQuestions)
      invariant |questions| == i
      invariant used == set k | 0 <= k < i :: phrases[k]
      invariant forall k :: 0 <= k < i ==> IsQuestion(questions[k], k, phrases, sentences)
    {
      if |questions| >= numQuestions {
        break;
      }
      var key := phrases[i];
      assert key !in used by {
        forall k | 0 <= k < i ensures phrases[k] != key { }
      }
      if key !in used {
        used := used + {key};
        var q;
        q, next := MakeQuestion(phrases, sentences, i, rand, next);
        AppendQuestion(questions, q, phrases, sentences);
        questions := questions + [q];
      }
      i := i + 1;
    }
  }

  /** The body of the loop for a phrase not asked before: the question
      about phrases[i]. */
  method MakeQuestion(phrases: seq<string>, sentences: seq<string>, i: nat, rand: nat -> nat, draw: nat)
    returns (q: Question, next: nat)
    requires i < |phrases| && phrases[i] != []
    ensures IsQuestion(q, i, phrases, sentences)
  {
    var key := phrases[i];
    var questionStem := Stem(sentences, key);
    var shuffled;
    shuffled, next := Shuffle(Options(phrases, key), rand, draw);
    q := Question(QuestionId(i + 1), questionStem, shuffled, key);
  }

  /** One more question keeps the questions in step with the phrases. */
  lemma AppendQuestion(questions: seq<Question>, q: Question, phrases: seq<string>, sentences: seq<string>)
    requires |questions| < |phrases|
    requires forall k :: 0 <= k < |questions| ==> IsQuestion(questions[k], k, phrases, sentences)
    requires IsQuestion(q, |questions|, phrases, sentences)
    ensures forall k :: 0 <= k < |questions| + 1 ==> IsQuestion((questions + [q])[k], k, phrases, sentences)
  {
    forall k | 0 <= k < |questions| + 1 ensures IsQuestion((questions + [q])[k], k, phrases, sentences) {
      if k < |questions| {
        assert (questions + [q])[k] == questions[k];
      }
    }
  }

  /** Questions built this way over distinct phrases: each answer is among
      its `min(4, n)` options, and answers and ids are pairwise distinct. */
  lemma QuestionsSpec(questions: seq<Question>, phrases: seq<string>, sentences: seq<string>)
    requires Distinct(phrases) && |questions| <= |phrases|
    requires forall i :: 0 <= i < |questions| ==> IsQuestion(questions[i], i, phrases, sentences)
    ensures forall i :: 0 <= i < |questions| ==>
      questions[i].answer in questions[i].options && |questions[i].options| == Min(4, |phrases|)
    ensures forall i, j :: 0 <= i < j < |questions| ==>
      questions[i].answer != questions[j].answer && questions[i].id != questions[j].id
  {
    forall i | 0 <= i < |questions|
      ensures questions[i].answer in questions[i].options && |questions[i].options| == Min(4, |phrases|)
    {
      QuestionSpec(questions[i], i, phrases, sentences);
    }
    forall i, j | 0 <= i < j < |questions|
      ensures questions[i].answer != questions[j].answer && questions[i].id != questions[j].id
    {
      assert questions[i].answer == phrases[i] && questions[j].answer == phrases[j];
      if questions[i].id == questions[j].id {
        QuestionIdInjective(i + 1, j + 1);
      }
    }
  }

  /** The server's quiz on a text: the ranked phrases are distinct, so the
      facts above hold for every quiz `GenerateQuiz` returns. */
  lemma QuizSpec(text: string, questions: seq<Question>)
    requires |questions| <= |RankedPhrases(text, 24)|
    requires forall i :: 0 <= i < |questions| ==>
      IsQuestion(questions[i], i, RankedPhrases(text, 24), SplitSentencesPy(text))
    ensures forall i :: 0 <= i < |questions| ==>
      questions[i].answer in questions[i].options
      && |questions[i].options| == Min(4, |RankedPhrases(text, 24)|)
    ensures forall i, j :: 0 <= i < j < |questions| ==>
      questions[i].answer != questions[j].answer && questions[i].id != questions[j].id
  {
    KeyPhrasesWords(text, 24);
    QuestionsSpec(questions, RankedPhrases(text, 24), SplitSentencesPy(text));
  }
}
