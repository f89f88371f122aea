# Study-material engine, modelled in Dafny

MyWebsite turns notes into study material: a cleaned text, its sentences,
ranked key phrases, a cloze quiz, mind-map data with escaped labels, and an
extractive summary. The engine exists twice. One copy runs in the browser
(`MyWebsite/script.js`) and the other on the server
(`MyWebsite/server/app.py`); the two are close but not identical. This
project models both copies, function by function, and proves what they
promise.

- **Shared helpers.** `Text` and `Seqs` hold the whitespace sets of
  JavaScript and Python, ASCII lower-casing, `trim`/`strip`, substring
  search and joining. They also hold the slicing rules both languages share:
  `slice(0, n)` and `[:n]`, where a negative stop counts from the end.
- **Cleaning.** `TextClean` models `cleanText` and `_clean_text`: collapse
  whitespace runs, blank every character outside the whitelist, trim.
- **Sentence splitting.** `Sentences` models `splitSentences` and
  `_split_sentences`. They split after `.`, `!` or `?` that is followed by
  whitespace; the server also drops pieces of two characters or fewer.
- **Key-phrase ranking.** Three modules model `extractKeyPhrases` and
  `_extract_key_phrases`:
  - `Tokenizer`: the word pattern, matched over the lower-cased text.
  - `Ranking`: the counting loop over an insertion-ordered table, then the
    cut at `limit`.
  - `Sorting`: the stable sort by descending count.
- **Quizzes.**
  - `Quiz` holds what both generators share: the question record, the
    search for the first sentence that mentions the key, and the blanking
    of the key.
  - `BrowserQuiz` models `generateQuizFromText`: a sliding window of
    distractors, and only the first occurrence of the key is blanked.
  - `ServerQuiz` models `_generate_quiz`: the first other phrases as
    distractors, the `used` set and the `break`, and every occurrence of the
    key is blanked.
  - `Decimal` models the `q<n>` ids.
- **Shuffle.** `Shuffling` models the Fisher-Yates loop of `shuffle`, which
  runs swaps over an array. The same loop sits behind `random.shuffle`.
- **Mind map.** `MindMap` models `extractTitle`, `generateMindMapData` and
  `escapeXml`. The escapes are the five predefined entities of section 2.4
  of the XML 1.0 specification.
- **Summary.** `Summary` models `_summarize`: the frequency table, the
  scoring loop, the top-n selection and re-emission in original order.

The imperative parts keep their form:
- the counting loop (`Ranking.CountQualifying`);
- the scoring loop (`Summary.ScoreSentences`);
- both quiz loops (`BrowserQuiz.GenerateQuiz`, `ServerQuiz.GenerateQuiz`);
- the in-place shuffle over an `array` (`Shuffling.Shuffle`).

Each of these methods is proved against a specification function, and the
properties are proved about that function.

Where the two copies compute the same thing, one definition serves both. The
differences are parameters: the whitespace set, and the word class `\w`.
Randomness is a parameter `rand: nat -> nat`; the k-th draw is `rand(k)`, and
`rand(k) % (i + 1)` is the index picked. The floating-point score of a
sentence is a parameter `ratio(total, count)`; only the order of the scores
matters to the selection.

`int(len(sentences) * 0.2)` is modelled as `len(sentences) / 5`. The double
nearest 0.2 is slightly above 0.2, so for a multiple of five the product is
rounded to that integer or above it, never below. Below 2^52 the rounding
error is too small to carry any other product up to the next integer. So
`int` agrees with exact division for every length below 2^52, and no list of
sentences comes near that.

Two behaviours of the code are modelled as they are:
- **`cleanText` is not idempotent.** `"a@ b"` cleans to `"a  b"`, which a
  second pass turns into `"a b"` (`TextClean.CleanTextNotIdempotent`).
- **The browser's mind-map centre is not the first sentence.** The browser
  passes the cleaned text, which has no newline, so with an empty title
  field the centre is the cleaned text cut to 80 characters when it is
  shorter than 100, else `Notes` (`MindMap.CenterOfCleanText`).

## Model

| member | source | states |
|---|---|---|
| `Text.Lower` | MyWebsite/script.js:147 | `toLowerCase`/`lower` keeps the length and maps each character through ASCII lower-casing |
| `Text.LowerIdentity` | MyWebsite/script.js:147 | text with no upper-case letter is its own lower-cased form |
| `Text.LowerAppend` | MyWebsite/script.js:147 | lower-casing works piece by piece |
| `Text.Trim` | MyWebsite/script.js:139 | `trim()` gives a string that is empty or starts and ends with a non-whitespace character |
| `Text.TrimSlice` | MyWebsite/script.js:139 | `trim()` cuts only whitespace, and only from both ends: the result is the slice between them |
| `Text.TrimUntrimmed` | MyWebsite/server/app.py:87 | `strip()` leaves text that neither starts nor ends with whitespace as it is |
| `Text.TrimKeepsNonSpace` | MyWebsite/script.js:143 | trimming keeps every non-whitespace character, in order |
| `Text.FirstMatch` | MyWebsite/script.js:164 | the search finds the first position at or after the start where the needle occurs, and none is skipped |
| `Seqs.SliceStop` | MyWebsite/script.js:154 | `slice(0, n)` / `[:n]` stops at `min(n, len)` for non-negative n and at `max(0, len + n)` for negative n |
| `Seqs.RemoveAll` | MyWebsite/script.js:166 | `filter(p => p !== key)` drops every copy of the key and keeps only elements of the input; every other element is kept |
| `Seqs.RemoveAllMultiset` | MyWebsite/script.js:166 | the filter keeps each other element exactly as often as it occurs and no copy of the key |
| `Seqs.RemoveAllAppend` | MyWebsite/script.js:166 | the filter works piece by piece, so it keeps the order of what it keeps |
| `Seqs.RemoveAllCutsOut` | MyWebsite/script.js:166 | one copy of the key between key-free pieces is cut out, and the pieces stay in order |
| `Seqs.RemoveAllOfDistinct` | MyWebsite/script.js:166 | among distinct phrases the filter removes exactly one element and keeps the rest distinct |
| `Seqs.DistinctAround` | MyWebsite/script.js:166 | among distinct phrases the key stands alone at its index |
| `Seqs.RemoveAllOfDistinctShape` | MyWebsite/script.js:166 | among distinct phrases the filter is the list with the key's index cut out, the rest in order, which the `slice(i, i + 3)` window reads |
| `Seqs.RemoveAllAbsent` | MyWebsite/script.js:166 | filtering out a phrase that is not there changes nothing |
| `Seqs.Range` | MyWebsite/server/app.py:139 | `range(n)` holds 0..n-1 in order |
| `Seqs.DistinctCardinality` | MyWebsite/server/app.py:154-160 | distinct phrases form a set of the same size, so the `used` set never rejects one |
| `TextClean.Collapse` | MyWebsite/script.js:139 | after `replace(/\s+/g, ' ')` the only whitespace left is the plain space |
| `TextClean.Mask` | MyWebsite/script.js:139 | the whitelist replace keeps the length, keeps each allowed character and turns every other one into a space |
| `TextClean.MaskIdentity` | MyWebsite/script.js:139 | text with only allowed characters passes the whitelist unchanged |
| `TextClean.CleanCharset` | MyWebsite/script.js:139 | every cleaned character is a word character, a plain space or kept punctuation |
| `TextClean.CollapseKeeps` | MyWebsite/script.js:139 | collapsing changes only whitespace |
| `TextClean.MaskKeeps` | MyWebsite/script.js:139 | masking keeps the allowed non-whitespace characters and turns the rest into whitespace |
| `TextClean.Clean` | MyWebsite/server/app.py:84-87 | the three steps in source order give text that a further `trim()`/`strip()` leaves unchanged; its character set is stated by `TextClean.CleanCharset` and its content by `TextClean.CleanKeepsContent` |
| `TextClean.CleanKeepsContent` | MyWebsite/script.js:139 | apart from whitespace, the output is exactly the input's word characters and kept punctuation, in order |
| `TextClean.CleanText` | MyWebsite/script.js:138-140 | `cleanText`: only `[A-Za-z0-9_]`, plain spaces and `. , ; : ! ? - ( )`, with no leading or trailing whitespace |
| `TextClean.CleanTextPy` | MyWebsite/server/app.py:83-87 | `_clean_text`: only word characters of the given `\w`, plain spaces and kept punctuation, stripped |
| `TextClean.CleanCharAscii` | MyWebsite/script.js:139 | each character the browser's whitelist admits is ASCII and neither a tab nor a newline |
| `TextClean.CleanTextAscii` | MyWebsite/script.js:138-140 | the browser's cleaned text is ASCII, with no tab and no newline |
| `TextClean.CleanTextKeepsContent` | MyWebsite/script.js:138-140 | the browser's cleaner loses no kept character and invents none |
| `TextClean.CollapseExample` | MyWebsite/script.js:139 | `"a@ b"` has no whitespace run to collapse |
| `TextClean.MaskExample` | MyWebsite/script.js:139 | the whitelist turns `"a@ b"` into `"a  b"` |
| `TextClean.CollapseRunExample` | MyWebsite/script.js:139 | collapsing turns `"a  b"` into `"a b"` |
| `TextClean.CleanTextNotIdempotent` | MyWebsite/script.js:138-140 | `"a@ b"` cleans to `"a  b"`, and cleaning that gives `"a b"`: a second pass changes the result |
| `Sentences.NextBoundary` | MyWebsite/script.js:143 | finds the first place at or after the start where `(?<=[\.!?])\s+` can match, or the end |
| `Sentences.RawSplit` | MyWebsite/script.js:143 | `split` always yields at least one piece |
| `Sentences.TrimmedNonEmpty` | MyWebsite/script.js:143 | `.map(trim).filter(Boolean)` yields non-empty, trimmed pieces, no more than it was given |
| `Sentences.TrimmedLonger` | MyWebsite/server/app.py:93 | the comprehension yields stripped pieces longer than two characters |
| `Sentences.RawSplitKeepsContent` | MyWebsite/script.js:143 | splitting removes only whitespace |
| `Sentences.TrimmedNonEmptyKeepsContent` | MyWebsite/script.js:143 | trimming and dropping empty pieces removes only whitespace |
| `Sentences.SegmentsKeepContent` | MyWebsite/script.js:143 | the sentences together hold every non-whitespace character of the text, in order |
| `Sentences.RawSplitEndsWithTerminal` | MyWebsite/script.js:143 | every piece of the split but the last ends with `.`, `!` or `?` |
| `Sentences.TrimmedNonEmptyEndsWithTerminal` | MyWebsite/script.js:143 | trimming keeps the sentence marks at the ends of the pieces |
| `Sentences.SegmentsEndWithTerminal` | MyWebsite/script.js:143 | every sentence but the last ends with a sentence mark |
| `Sentences.RawSplitUnsplittable` | MyWebsite/script.js:143 | no piece contains a sentence mark followed by whitespace |
| `Sentences.TrimUnsplittable` | MyWebsite/script.js:143 | trimming a piece cannot create a split point |
| `Sentences.TrimmedNonEmptyUnsplittable` | MyWebsite/script.js:143 | the trimmed pieces still hold no split point |
| `Sentences.SegmentsUnsplittable` | MyWebsite/script.js:143 | no sentence could be split further |
| `Sentences.SplitSentences` | MyWebsite/script.js:142-144 | every browser sentence is non-empty and neither starts nor ends with whitespace; the full contract is `Sentences.SplitSentencesSpec` |
| `Sentences.SplitSentencesPy` | MyWebsite/server/app.py:90-93 | every server sentence is longer than two characters and stripped; its relation to the browser's is `Sentences.SplitSentencesPyIsFiltered` |
| `Sentences.SentencesTrimmed` | MyWebsite/script.js:142-144 | `splitSentences` never returns an empty or untrimmed string |
| `Sentences.SentencesUnsplittable` | MyWebsite/script.js:142-144 | the browser cut at every sentence mark followed by whitespace |
| `Sentences.SentencesTerminated` | MyWebsite/script.js:142-144 | every browser sentence but the last ends with a sentence mark |
| `Sentences.SentencesKeepContent` | MyWebsite/script.js:142-144 | the browser's sentences keep the text's content in order |
| `Sentences.SplitSentencesSpec` | MyWebsite/script.js:142-144 | the sentences are non-empty and trimmed, keep the content in order, end with a mark (all but the last) and cannot be split further |
| `Sentences.TrimmedLongerIsFiltered` | MyWebsite/server/app.py:93 | the server's comprehension equals trimming, dropping empties and then keeping pieces longer than two characters |
| `Sentences.SplitSentencesPyIsFiltered` | MyWebsite/server/app.py:90-93 | `_split_sentences` gives exactly the browser-style sentences (Python whitespace) longer than two characters, in order |
| `Sentences.TrimmedNonEmptyIdentity` | MyWebsite/script.js:143 | pieces that are already trimmed and non-empty pass unchanged |
| `Sentences.RawSplitExample1` | MyWebsite/script.js:143 | `"C?"` is a single piece |
| `Sentences.RawSplitExample2` | MyWebsite/script.js:143 | `"B! C?"` splits into `"B!"` and `"C?"` |
| `Sentences.RawSplitExample3` | MyWebsite/script.js:143 | `"A. B! C?"` splits into three pieces at the spaces |
| `Sentences.SplitSentencesExample` | MyWebsite/script.js:142-144 | `"A. B! C?"` gives `["A.", "B!", "C?"]` |
| `Tokenizer.TokenRunEnd` | MyWebsite/script.js:147 | the `+` of the word pattern takes the whole run of token characters |
| `Tokenizer.Scan` | MyWebsite/script.js:147 | every match of `/[a-z0-9][a-z0-9\-']+/g` is a whole token: a letter or digit followed by at least one token character |
| `Tokenizer.ScanWord` | MyWebsite/script.js:147 | a match starting at p takes the word up to the first character that cannot continue it, and the search resumes there |
| `Tokenizer.LowerHasNoUpper` | MyWebsite/server/app.py:97 | lower-cased text holds no upper-case letter, so the server's `[a-zA-Z0-9]` finds the browser's matches |
| `Tokenizer.ScanShift` | MyWebsite/script.js:147 | scanning a + b from a position inside b finds what scanning b finds |
| `Tokenizer.ScanAppend` | MyWebsite/script.js:147 | text ending with a non-token character, followed by more text, yields the words of the first part and then those of the second |
| `Tokenizer.ScanJoin` | MyWebsite/script.js:147 | lower-case words joined by single spaces tokenize back to exactly those words |
| `Tokenizer.Tokens` | MyWebsite/script.js:147 | every word of the text is a token of the pattern; `Tokenizer.ScanJoin` and `Tokenizer.ScanAppend` say which |
| `Ranking.Words` | MyWebsite/script.js:154 | `.map(([w]) => w)` keeps one word per entry, in order |
| `Ranking.Tally` | MyWebsite/script.js:149-153 | the frequency table after the loop; what it holds is stated by `Ranking.TallyCorrect` |
| `Ranking.BumpFound` | MyWebsite/script.js:152 | `freq.set` on an existing key raises its count by one and leaves it in place |
| `Ranking.BumpAbsent` | MyWebsite/script.js:152 | `freq.set` on a new key appends it with count 1 |
| `Ranking.StepFound` | MyWebsite/script.js:150-153 | counting a word already in the table keeps the table the frequency table of the words seen |
| `Ranking.StepNew` | MyWebsite/script.js:150-153 | counting a new qualifying word keeps the table the frequency table |
| `Ranking.StepSkip` | MyWebsite/script.js:151 | a stop-word or a word shorter than 3 leaves the table the frequency table |
| `Ranking.StepKeepsTally` | MyWebsite/script.js:150-153 | one turn of the loop keeps the table the frequency table |
| `Ranking.TallyCorrect` | MyWebsite/script.js:150-153 | the loop builds one entry per distinct qualifying word, with its number of occurrences, in order of first occurrence |
| `Ranking.LookupTally` | MyWebsite/server/app.py:134 | `freq.get(w, 0)` is the number of occurrences of w when w qualifies, and 0 otherwise |
| `Ranking.LookupAt` | MyWebsite/server/app.py:134 | `freq.get(w, 0)` returns the count of the first entry that holds w |
| `Ranking.LookupAbsent` | MyWebsite/server/app.py:134 | `freq.get(w, 0)` is 0 for a word without an entry |
| `Ranking.EntryFacts` | MyWebsite/script.js:150-153 | every entry is a qualifying word of the text holding its exact count |
| `Ranking.TallyDistinct` | MyWebsite/script.js:150-153 | the table never holds a word twice |
| `Ranking.TallyComplete` | MyWebsite/script.js:150-153 | every qualifying word has an entry |
| `Ranking.TallyOrder` | MyWebsite/script.js:150-153 | entries come in order of first occurrence |
| `Ranking.VocabularySize` | MyWebsite/script.js:150-153 | the table has one entry per distinct qualifying word |
| `Ranking.SortedTallyRanked` | MyWebsite/script.js:154 | the sort permutes the table and ranks it by descending count, ties in table order |
| `Ranking.SortedTallyEntries` | MyWebsite/script.js:154 | the sorted entries are qualifying words with their exact counts |
| `Ranking.SortedTallyDistinct` | MyWebsite/script.js:154 | the sorted words are distinct |
| `Ranking.SortedTallyOrdered` | MyWebsite/script.js:154 | the sorted words are by descending count, ties by first occurrence in the text |
| `Ranking.SortedTallyComplete` | MyWebsite/script.js:154 | every qualifying word is among the sorted words |
| `Ranking.PrefixOrdered` | MyWebsite/script.js:154 | `slice(0, limit)` keeps the order |
| `Ranking.PrefixMostFrequent` | MyWebsite/script.js:154 | no qualifying word cut off by `slice(0, limit)` occurs more often than one kept |
| `Ranking.RankedPhrases` | MyWebsite/script.js:146-155 | for a non-negative limit at most `limit` phrases; the full contract is `Ranking.KeyPhrasesSpec` |
| `Ranking.KeyPhrasesCount` | MyWebsite/script.js:154 | there are as many phrases as distinct qualifying words, cut at `limit` |
| `Ranking.KeyPhrasesWords` | MyWebsite/script.js:146-155 | the phrases are pairwise distinct words of the text, none a stop-word or shorter than 3 |
| `Ranking.KeyPhrasesOrder` | MyWebsite/script.js:146-155 | the phrases are by non-increasing count, ties in first-occurrence order, and none left out occurs more often than one kept |
| `Ranking.KeyPhrasesSpec` | MyWebsite/server/app.py:96-110 | `_extract_key_phrases`/`extractKeyPhrases`: count, distinctness, no stop-words or short words, order by count then first occurrence, and the most frequent words kept |
| `Ranking.CountQualifying` | MyWebsite/script.js:149-153 | the counting loop returns the frequency table of the words |
| `Ranking.ExtractKeyPhrases` | MyWebsite/script.js:146-155 | the method returns the ranked phrases |
| `Ranking.TallyAddNew` | MyWebsite/script.js:152 | a qualifying word not yet in the table joins it at the end with count 1 |
| `Ranking.TallyBumpLast` | MyWebsite/script.js:152 | a word held by the last entry raises only that count |
| `Ranking.ExampleTokens` | MyWebsite/script.js:147 | `"the cat dog dog"` tokenizes to its four words |
| `Ranking.ExampleTally` | MyWebsite/script.js:150-153 | the stop-word `the` is skipped; `cat` counts 1 and `dog` counts 2 |
| `Ranking.ExampleSort` | MyWebsite/script.js:154 | counts 1, 2 sort to 2, 1 |
| `Ranking.ExampleRanked` | MyWebsite/script.js:154 | the table of the four words, sorted and cut at 2, gives `dog`, `cat` |
| `Ranking.KeyPhrasesExample` | MyWebsite/script.js:146-155 | `"the cat dog dog"` with limit 2 gives `["dog", "cat"]` |
| `Ranking.TallyExample` | MyWebsite/script.js:150-153 | two of a, three of b, one of c count 2, 3, 1, in order of first occurrence |
| `Ranking.SortExample` | MyWebsite/script.js:154 | counts 2, 3, 1 sort to 3, 2, 1 |
| `Ranking.TokensGlue` | MyWebsite/script.js:147 | two lower-case pieces, the first ending with a space, tokenize to the words of each |
| `Ranking.CountTokens` | MyWebsite/script.js:147 | `"cat cat dog dog dog bird"` tokenizes to its six words |
| `Ranking.CountTally` | MyWebsite/script.js:150-153 | the six words count `cat` 2, `dog` 3, `bird` 1 |
| `Ranking.CountRanked` | MyWebsite/script.js:154 | sorted and cut at 2, the table gives `dog`, `cat` |
| `Ranking.KeyPhrasesCountExample` | MyWebsite/script.js:146-155 | `"cat cat dog dog dog bird"` with limit 2 gives `["dog", "cat"]` |
| `Sorting.InsertPos` | MyWebsite/script.js:154 | the insertion point comes after every element whose count is at least the new one's and before the first lower one |
| `Sorting.InsertShape` | MyWebsite/script.js:154 | insertion puts the element at that point and keeps the rest in place |
| `Sorting.SortDesc` | MyWebsite/script.js:154 | the sort keeps the number of entries |
| `Sorting.RankedExtend` | MyWebsite/script.js:154 | appending an element to the input keeps a ranking of the earlier elements a ranking |
| `Sorting.SortDescPermutes` | MyWebsite/script.js:154 | the sort only rearranges its input |
| `Sorting.InsertPermutes` | MyWebsite/script.js:154 | insertion adds exactly the new element |
| `Sorting.InsertRanked` | MyWebsite/script.js:154 | inserting the next element keeps the result ranked |
| `Sorting.InsertPair` | MyWebsite/script.js:154 | after the insertion any two positions are in ranked order |
| `Sorting.SortDescRanked` | MyWebsite/script.js:154 | a stable descending sort: by descending key, equal keys in input order |
| `Sorting.RankedDescending` | MyWebsite/script.js:154 | a ranked sequence has non-increasing keys |
| `Sorting.RankedDistinct` | MyWebsite/script.js:154 | a ranking lists no element twice |
| `Shuffling.Shuffle` | MyWebsite/script.js:173-180 | `shuffle` returns a permutation of its input, of the same length, using one draw per swap |
| `Decimal.DigitChar` | MyWebsite/script.js:168 | a digit below ten is written as its decimal character |
| `Decimal.NatToString` | MyWebsite/script.js:168 | `${i+1}` is a non-empty string of digits with no leading zero |
| `Decimal.ParseNatToString` | MyWebsite/script.js:168 | reading the numeral back gives the number |
| `Decimal.NatToStringInjective` | MyWebsite/script.js:168 | different numbers have different numerals |
| `Decimal.QuestionId` | MyWebsite/script.js:168 | an id is `q` followed by at least one digit |
| `Decimal.QuestionIdInjective` | MyWebsite/server/app.py:171 | questions with different numbers get different ids |
| `Decimal.QuestionIdExample` | MyWebsite/script.js:168 | question 12 gets the id `"q12"` |
| `Quiz.FirstMention` | MyWebsite/script.js:163 | `sentences.find(...)` picks the first sentence whose lower-cased form contains the key, or none |
| `Quiz.ReplaceFirst` | MyWebsite/script.js:164 | the sentence is unchanged, or one stretch of the key's length became the five-character blank; which one is stated by `Quiz.ReplaceFirstAt` |
| `Quiz.ReplaceFirstAt` | MyWebsite/script.js:164 | `replace(new RegExp(key, 'i'), '_____')` blanks exactly the first case-insensitive occurrence |
| `Quiz.ReplaceFirstNone` | MyWebsite/script.js:164 | without an occurrence the sentence is unchanged |
| `Quiz.LowerSlice` | MyWebsite/server/app.py:163 | lower-casing a slice is slicing the lower-cased text |
| `Quiz.ReplaceAll` | MyWebsite/server/app.py:163-164 | blanking never empties a sentence nor invents one; that no occurrence survives is `Quiz.ReplaceAllRemovesKey` |
| `Quiz.ReplaceAllNone` | MyWebsite/server/app.py:163-164 | `pattern.sub` leaves a sentence without an occurrence unchanged |
| `Quiz.ReplaceAllPrefix` | MyWebsite/server/app.py:164 | a stretch of the blanked sentence free of `_` is the sentence's own text |
| `Quiz.BlankFirst` | MyWebsite/server/app.py:164 | text starting with the key is blanked from its first character |
| `Quiz.NoMatchAfter` | MyWebsite/server/app.py:164 | an occurrence-free tail means no occurrence from that point on |
| `Quiz.BlankNoMatch` | MyWebsite/server/app.py:164 | a key without `_` does not occur where the blank is |
| `Quiz.RemovesKeyAtStart` | MyWebsite/server/app.py:164 | text that does not start with the key does not start with it after blanking |
| `Quiz.ReplaceAllRemovesKey` | MyWebsite/server/app.py:163-164 | no case-insensitive occurrence of the key survives `pattern.sub` |
| `BrowserQuiz.DistractorsSpec` | MyWebsite/script.js:166 | question i gets exactly `min(3, max(0, n-1-i))` distractors, none of them the key, all ranked phrases |
| `BrowserQuiz.Distractors` | MyWebsite/script.js:166 | at most three distractors, each a phrase other than the key; their exact number is `BrowserQuiz.DistractorsSpec` |
| `BrowserQuiz.Stem` | MyWebsite/script.js:163-164 | the stem is never empty; `BrowserQuiz.StemSpec` and `BrowserQuiz.StemTemplate` give it |
| `BrowserQuiz.QuestionSpec` | MyWebsite/script.js:166-167 | the answer is among the options, which number `1 + min(3, max(0, n-1-i))`, at most 4, all ranked phrases |
| `BrowserQuiz.StemSpec` | MyWebsite/script.js:163-164 | with a mention, the stem is the first mentioning sentence with the key's first occurrence replaced by `_____` |
| `BrowserQuiz.StemTemplate` | MyWebsite/script.js:164 | without a mention, the stem is `What best describes: key?` |
| `BrowserQuiz.GenerateQuiz` | MyWebsite/script.js:157-171 | `min(count, n)` questions (none for a negative count); question i is about `phrases[i]`, with id `q(i+1)` and the key and its distractors as options |
| `BrowserQuiz.MakeQuestion` | MyWebsite/script.js:162-168 | the loop body builds the question about `phrases[i]` |
| `BrowserQuiz.AppendQuestion` | MyWebsite/script.js:168 | pushing the question keeps the questions in step with the phrases |
| `BrowserQuiz.QuestionsSpec` | MyWebsite/script.js:157-171 | every answer is among its options; answers and ids are pairwise distinct |
| `BrowserQuiz.QuizSpec` | MyWebsite/script.js:157-171 | the quiz facts hold for every quiz generated from a text |
| `ServerQuiz.OptionsShape` | MyWebsite/server/app.py:168-169 | `([correct] + distractors)[:4]` is the key and the first three other phrases, `min(4, n)` of them |
| `ServerQuiz.OptionsSpec` | MyWebsite/server/app.py:168-169 | the options are distinct ranked phrases, the key first |
| `ServerQuiz.Options` | MyWebsite/server/app.py:167-168 | one to four options, the key first; `ServerQuiz.OptionsShape` gives them |
| `ServerQuiz.QuestionSpec` | MyWebsite/server/app.py:167-169 | the options are a permutation of the key and the first three other phrases; the answer is among them; there are `min(4, n)` |
| `ServerQuiz.StemSpec` | MyWebsite/server/app.py:161-164 | with a mention, the stem is the first mentioning sentence with every occurrence blanked, and no occurrence is left |
| `ServerQuiz.StemTemplate` | MyWebsite/server/app.py:165-166 | without a mention, the stem is the template |
| `ServerQuiz.Stem` | MyWebsite/server/app.py:161-166 | the stem is never empty; `ServerQuiz.StemSpec` and `ServerQuiz.StemTemplate` give it |
| `ServerQuiz.RankedWordShape` | MyWebsite/server/app.py:97 | a ranked phrase has at least three characters and no `_` |
| `ServerQuiz.RankedPhrasesFacts` | MyWebsite/server/app.py:145 | the phrases ranked for the quiz are distinct words of at least three characters with no `_` |
| `ServerQuiz.GenerateQuiz` | MyWebsite/server/app.py:143-177 | `min(max(0, num_questions), n)` questions; question i is about `phrases[i]`, with id `q(i+1)`, the blanked stem and the shuffled options |
| `ServerQuiz.MakeQuestion` | MyWebsite/server/app.py:161-175 | the loop body builds the question about `phrases[i]` |
| `ServerQuiz.AppendQuestion` | MyWebsite/server/app.py:170-175 | appending the question keeps the questions in step with the phrases |
| `ServerQuiz.QuestionsSpec` | MyWebsite/server/app.py:154-175 | every answer is among its `min(4, n)` options; answers and ids are pairwise distinct |
| `ServerQuiz.QuizSpec` | MyWebsite/server/app.py:143-177 | the quiz facts hold for every quiz generated from a text |
| `MindMap.FirstLine` | MyWebsite/script.js:190 | `split(/\n/)[0]` is the prefix up to the first newline |
| `MindMap.ExtractTitle` | MyWebsite/script.js:189-193 | a title is non-empty, shorter than 100 characters and a single line; when there is one is `MindMap.ExtractTitleSpec` |
| `MindMap.ExtractTitleSpec` | MyWebsite/script.js:189-193 | a title exists exactly when the trimmed text is non-empty and its first line is shorter than 100; the title is that line |
| `MindMap.TitleOfCleanText` | MyWebsite/script.js:189-193 | on cleaned text the title is the whole text when it is non-empty and shorter than 100 characters |
| `MindMap.Center` | MyWebsite/script.js:184 | the centre is non-empty and at most 80 characters long |
| `MindMap.MindMapSpec` | MyWebsite/script.js:183-187 | the centre falls back from the title to the extracted title to `Notes`, cut to 80; the topics are at most `maxNodes` distinct ranked phrases |
| `MindMap.CenterOfCleanText` | MyWebsite/script.js:184 | from the generate flow, with an empty title field, the centre is the cleaned text cut to 80 when it is shorter than 100, else `Notes` |
| `MindMap.GenerateMindMapData` | MyWebsite/script.js:183-187 | the centre has 1 to 80 characters and there are at most `maxNodes` topics; the full contract is `MindMap.MindMapSpec` |
| `MindMap.EscapeCharSafe` | MyWebsite/script.js:227 | an escaped character is safe markup whatever follows it |
| `MindMap.EscapeChar` | MyWebsite/script.js:227 | each character becomes one to six characters |
| `MindMap.EscapeXml` | MyWebsite/script.js:226-228 | escaping never shortens the text; safety is `MindMap.EscapeXmlSafe` and the round trip `MindMap.UnescapeEscapeXml` |
| `MindMap.EscapeXmlSafe` | MyWebsite/script.js:226-228 | escaped text contains none of `< > " '`, and every `&` begins one of the five entities |
| `MindMap.EscapeXmlIdentity` | MyWebsite/script.js:226-228 | text without reserved characters is unchanged |
| `MindMap.EscapeXmlAppend` | MyWebsite/script.js:227 | escaping works piece by piece |
| `MindMap.EscapeXmlHeadExample` | MyWebsite/script.js:227 | `"R&D "` escapes to `"R&amp;D "` |
| `MindMap.EscapeXmlTailExample` | MyWebsite/script.js:227 | `"<lab>"` escapes to `"&lt;lab&gt;"` |
| `MindMap.EscapeXmlExample` | MyWebsite/script.js:226-228 | `"R&D <lab>"` escapes to `"R&amp;D &lt;lab&gt;"` |
| `MindMap.NotStartsWith` | MyWebsite/script.js:227 | a mismatch rules out an entity at that position |
| `MindMap.UnescapeChar` | MyWebsite/script.js:227 | unescaping reads one escaped character back |
| `MindMap.UnescapeEscapeXml` | MyWebsite/script.js:226-228 | escaping loses nothing: unescaping gives the input back |
| `Summary.SumCountsTally` | MyWebsite/server/app.py:134 | `sum(freq.get(w, 0) for w in sw)` is the sentence's weight: each qualifying word counted as often as it occurs in the text |
| `Summary.Scores` | MyWebsite/server/app.py:131-135 | one score per sentence |
| `Summary.ScoreSentences` | MyWebsite/server/app.py:131-135 | the scoring loop computes each sentence's score, in order |
| `Summary.RangeIndex` | MyWebsite/server/app.py:139 | in `range(n)` each index stands at its own position |
| `Summary.RankedIndices` | MyWebsite/server/app.py:139 | the sort by score lists each sentence index once, by descending score, ties by position |
| `Summary.AscendingIndices` | MyWebsite/server/app.py:139 | the outer `sorted` puts the chosen indices in ascending order and keeps them all |
| `Summary.ChosenBeatsRest` | MyWebsite/server/app.py:139 | an index among the first n ranked beats every index after them |
| `Summary.SelectedChosen` | MyWebsite/server/app.py:139 | the selection is the first n ranked indices, re-sorted ascending |
| `Summary.SelectedInRange` | MyWebsite/server/app.py:139 | every selected index is a sentence index |
| `Summary.SelectedIndicesSpec` | MyWebsite/server/app.py:139 | the selection has the `[:n]` size, is ascending, and no sentence left out scores higher than a chosen one (or the same while earlier) |
| `Summary.Pick` | MyWebsite/server/app.py:140 | `sentences[i] for i in top_idxs` picks the sentences at the chosen indices |
| `Summary.Selection` | MyWebsite/server/app.py:138-139 | every chosen index is a sentence index; which ones is stated by `Summary.SelectedIndicesSpec` |
| `Summary.SummaryOf` | MyWebsite/server/app.py:113-140 | `_summarize`; its contract is `Summary.SummarySpec` |
| `Summary.SummarySpec` | MyWebsite/server/app.py:113-140 | `""` without sentences; otherwise the returned string is the chosen sentences joined by single spaces: `min(max_sentences, max(1, len // 5))` of them for a positive maximum, in original order, the best-scoring ones |
| `Summary.Summarize` | MyWebsite/server/app.py:113-140 | the method computes the summary |

## Left out

- User interface: the DOM and UI code, tab switching, drag-and-drop, the
  file list, the generate handler and the preview and list renderers. The
  model starts where these hand text to the engine.
- External I/O and libraries:
  - `localStorage` persistence;
  - reading PDF and other files through pdf.js and PyPDF2;
  - the Flask and CORS routes, request parsing and `jsonify`.
- `Date.now` and `toISOString` ids and timestamps: they come from the
  clock.
- `renderMindMapSvg`: its node coordinates are floating-point `Math.cos`
  and `Math.sin` values. Its labels pass through `escapeXml`, which is
  modelled.
- Shuffling.Shuffle: states only that the result is a permutation that uses
  one draw per swap. It does not model the distribution of `Math.random`,
  or the exact way `random.shuffle` turns random bits into `randbelow(i + 1)`.
  The draws are a parameter.
- Summary.Scores: the score `sum / (len(sw) + 1e-6)` is a floating-point
  division. It is the parameter `ratio`, so the model does not pin down
  which sentences tie under rounding.
- Text.Lower: lower-cases ASCII letters only. `toLowerCase` and `lower`
  also map other Unicode letters, and `re.IGNORECASE` matches them case
  by case. This is exact for the browser's quiz and key phrases on cleaned
  text, which is ASCII (`TextClean.CleanTextAscii`). It is not exact for
  any non-ASCII input, which includes the server's cleaned text: Python's
  `_clean_text` keeps Unicode letters, `lower` maps U+212A to `k` and
  U+0130 to `i` followed by a combining dot, and `re.IGNORECASE` also
  folds U+017F and U+0131.
- TextClean.CleanTextPy: Python's `\w` is Unicode-aware. It is the
  parameter `isWord`, and is not pinned to Unicode's letter and digit
  categories.
- Characters are Unicode scalar values. JavaScript strings are UTF-16, and
  the model counts a character outside the Basic Multilingual Plane as one
  where JavaScript counts two:
  - in `slice(0, 80)` and in length checks;
  - in the whitelist replace of `cleanText`. It has no `u` flag, so it blanks
    each UTF-16 code unit. An emoji becomes two spaces in the browser and
    one in `TextClean.Mask` and `TextClean.CleanText`. The difference
    reaches the sentences, the title check and the mind-map centre.
- `noteTitle.value` is a parameter of `MindMap.GenerateMindMapData`. Reading
  the input field is UI.
- The key used as a pattern is taken literally in
  `new RegExp(key, 'i')`. This is exact because a ranked key holds only
  `[a-z0-9'-]`, and `-` outside a character class is literal. For the
  server, `re.escape` makes it literal by construction.
- Non-integer arguments are not modelled: a fractional or `NaN` `count`,
  or a non-integer `limit` or `maxNodes`. The parameters are integers.
