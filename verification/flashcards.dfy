/** `generateFlashcards` (utils/generator.ts): each of the first 500
    sentences of 5 to 40 words proposes a cloze card whose answer is its
    best-scoring word; the first card for each (lower-cased) answer wins. */
module FlashcardGen {
  import opened Wrappers
  import opened Chars
  import opened Text
  import opened Sorting
  import opened FirstWins
  import opened Sentences
  import opened Cleaning
  import opened StudyTypes

  const SentenceLimit: nat := 500
  const MinWords: nat := 5
  const MaxWords: nat := 40
  const MinAnswer: nat := 3

  /** The score of the word at position `i`: 3 for a digit, 2 for a
      capital initial past the first word, 1 for more than seven characters
      (counted before punctuation is stripped). */
  function TokenScore(w: string, i: nat): (r: int)
    ensures 0 <= r <= 6
    ensures r > 0 <==> HasDigit(w) || CapitalBonus(w, i) || |w| > 7
    ensures HasDigit(w) ==> r >= 3
  {
    (if HasDigit(w) then 3 else 0)
    + (if CapitalBonus(w, i) then 2 else 0)
    + (if |w| > 7 then 1 else 0)
  }

  /** A word past the first that starts with an upper-case letter. */
  predicate CapitalBonus(w: string, i: nat) {
    i > 0 && |w| > 0 && IsUpper(w[0])
  }

  /** What each bonus is worth: two words that differ in one bonus only
      differ in score by its weight, 3 for a digit, 2 for a capital initial
      past the first word and 1 for more than seven characters. */
  lemma TokenScoreWeights(w: string, i: nat, v: string, j: nat)
    ensures (CapitalBonus(w, i) == CapitalBonus(v, j) && (|w| > 7) == (|v| > 7)
             && HasDigit(w) && !HasDigit(v))
            ==> TokenScore(w, i) == TokenScore(v, j) + 3
    ensures (HasDigit(w) == HasDigit(v) && (|w| > 7) == (|v| > 7)
             && CapitalBonus(w, i) && !CapitalBonus(v, j))
            ==> TokenScore(w, i) == TokenScore(v, j) + 2
    ensures (HasDigit(w) == HasDigit(v) && CapitalBonus(w, i) == CapitalBonus(v, j)
             && |w| > 7 && |v| <= 7)
            ==> TokenScore(w, i) == TokenScore(v, j) + 1
  {
  }

  /** A word with its position and score, the element the source sorts. */
  datatype Scored = Scored(w: string, i: nat, score: int)

  function ScoreWords(words: seq<string>): (r: seq<Scored>)
    ensures |r| == |words|
    ensures forall i :: 0 <= i < |r| ==> r[i] == Scored(words[i], i, TokenScore(words[i], i))
  {
    seq(|words|, i requires 0 <= i < |words| => Scored(words[i], i, TokenScore(words[i], i)))
  }

  function Priority(x: Scored): int {
    -x.score
  }

  /** Scanning from `i` with `b` the best position so far: the position of
      the first word of greatest score. */
  function BestFrom(words: seq<string>, i: nat, b: nat): (r: nat)
    requires b < i <= |words|
    requires forall j :: 0 <= j < i ==> TokenScore(words[j], j) <= TokenScore(words[b], b)
    requires forall j :: 0 <= j < b ==> TokenScore(words[j], j) < TokenScore(words[b], b)
    ensures r < |words|
    ensures forall j :: 0 <= j < |words| ==> TokenScore(words[j], j) <= TokenScore(words[r], r)
    ensures forall j :: 0 <= j < r ==> TokenScore(words[j], j) < TokenScore(words[r], r)
    decreases |words| - i
  {
    if i == |words| then b
    else if TokenScore(words[i], i) > TokenScore(words[b], b) then BestFrom(words, i + 1, i)
    else BestFrom(words, i + 1, b)
  }

  /** The best word: no word scores higher, and every earlier word scores
      strictly lower. */
  function Best(words: seq<string>): (r: nat)
    requires |words| > 0
    ensures r < |words|
    ensures forall j :: 0 <= j < |words| ==> TokenScore(words[j], j) <= TokenScore(words[r], r)
    ensures forall j :: 0 <= j < r ==> TokenScore(words[j], j) < TokenScore(words[r], r)
  {
    BestFrom(words, 1, 0)
  }

  /** The source's `candidates.sort((a, b) => b.score - a.score)[0]`, a
      stable sort, picks the same word as the scan. */
  lemma BestIsSortHead(words: seq<string>)
    requires |words| > 0
    ensures SortBy(ScoreWords(words), Priority)[0] == ScoreWords(words)[Best(words)]
  {
    var c := ScoreWords(words);
    var b := Best(words);
    SortHeadIsFirstBest(c, Priority, b);
  }

  /** The card sentence `idx` proposes, before duplicate answers are
      suppressed. */
  function Card(s: string, idx: nat): Option<Flashcard> {
    var clean := CleanSentence(s);
    var words := Words(clean);
    if |words| < MinWords || |words| > MaxWords then None
    else
      var b := Best(words);
      var w := words[b];
      var answer := Strip(w);
      if TokenScore(w, b) <= 0 || |answer| < MinAnswer then None
      else
        WordOccurs(clean, b);
        Some(Flashcard("fc-" + NatToString(idx), Cloze(clean, w), answer))
  }

  /** A sentence proposes a card exactly when it has 5 to 40 words, its
      best word scores above zero and keeps at least three characters once
      stripped of punctuation. The answer is that stripped word, and the
      front is the cleaned sentence with the first occurrence of the word
      masked: putting the word back in place of the mask gives the cleaned
      sentence. */
  lemma CardSpec(s: string, idx: nat)
    ensures var r := Card(s, idx);
            var clean := CleanSentence(s);
            var words := Words(clean);
            && (r.None? <==> (|words| < MinWords || |words| > MaxWords
                              || TokenScore(words[Best(words)], Best(words)) <= 0
                              || |Strip(words[Best(words)])| < MinAnswer))
            && (r.Some? ==>
                  && |r.value.back| >= MinAnswer
                  && (forall k :: 0 <= k < |r.value.back| ==> !IsStripped(r.value.back[k]))
                  && r.value.id == "fc-" + NatToString(idx)
                  && var b := Best(words);
                  && r.value.back == Strip(words[b])
                  && exists k :: && OccursAt(r.value.front, Mask, k)
                                 && (forall j :: 0 <= j < k ==> !OccursAt(clean, words[b], j))
                                 && r.value.front[..k] + words[b] + r.value.front[k + |Mask|..] == clean)
  {
  }

  /** The cards proposed by a window of sentences, in order: exactly the
      cards some sentence proposes, at most one per sentence, in the order
      of the sentences that propose them. */
  function Proposals(w: seq<string>): (r: seq<Flashcard>)
    ensures Collected(ApplyIndexed(w, Card), r)
    ensures |r| <= |w|
    ensures forall e :: e in r <==> exists i :: 0 <= i < |w| && Card(w[i], i) == Some(e)
  {
    FilterMapIndexed(w, Card)
  }

  /** Different sentence positions give different ids. */
  lemma IdsDiffer(a: nat, b: nat)
    requires a != b
    ensures "fc-" + NatToString(a) != "fc-" + NatToString(b)
  {
    var x, y := NatToString(a), NatToString(b);
    assert x != y;
    assert ("fc-" + x)[3..] == x && ("fc-" + y)[3..] == y;
  }

  /** The case-insensitive answer key duplicates are judged by. */
  function AnswerKey(c: Flashcard): string {
    Lower(c.back)
  }

  function Window(text: string): seq<string> {
    FirstSentences(text, SentenceLimit)
  }

  /** `generateFlashcards(text)`: answers of at least three characters
      without punctuation, no two equal ignoring case, distinct ids; each
      card is the first proposed for its answer, and every proposed answer
      has its card. */
  function Flashcards(text: string): (r: seq<Flashcard>)
    ensures |r| <= |Window(text)|
    ensures forall p :: 0 <= p < |r| ==> |r[p].back| >= MinAnswer
    ensures forall p :: 0 <= p < |r| ==> forall k :: 0 <= k < |r[p].back| ==> !IsStripped(r[p].back[k])
    ensures forall p, q :: 0 <= p < q < |r| ==> AnswerKey(r[p]) != AnswerKey(r[q]) && r[p].id != r[q].id
    ensures forall p :: 0 <= p < |r| ==> FirstWithKey(Proposals(Window(text)), AnswerKey, AnswerKey(r[p])) == Some(r[p])
    ensures KeysOf(r, AnswerKey) == KeysOf(Proposals(Window(text)), AnswerKey)
  {
    var w := Window(text);
    var props := Proposals(w);
    var r := Dedup(props, AnswerKey, {});
    DedupFacts(w, props, r);
    r
  }

  lemma DedupFacts(w: seq<string>, props: seq<Flashcard>, r: seq<Flashcard>)
    requires props == Proposals(w)
    requires r == Dedup(props, AnswerKey, {})
    ensures forall p :: 0 <= p < |r| ==> |r[p].back| >= MinAnswer
    ensures forall p :: 0 <= p < |r| ==> forall k :: 0 <= k < |r[p].back| ==> !IsStripped(r[p].back[k])
    ensures forall p, q :: 0 <= p < q < |r| ==> r[p].id != r[q].id
  {
    forall p | 0 <= p < |r|
      ensures |r[p].back| >= MinAnswer && forall k :: 0 <= k < |r[p].back| ==> !IsStripped(r[p].back[k])
    {
      DedupCardShape(w, props, r, p);
    }
    forall p, q | 0 <= p < q < |r| ensures r[p].id != r[q].id {
      DedupIdsDiffer(w, props, r, p, q);
    }
  }

  /** One kept card of `DedupFacts`: its answer is long enough and clean. */
  lemma DedupCardShape(w: seq<string>, props: seq<Flashcard>, r: seq<Flashcard>, p: nat)
    requires props == Proposals(w)
    requires r == Dedup(props, AnswerKey, {})
    requires p < |r|
    ensures |r[p].back| >= MinAnswer && forall k :: 0 <= k < |r[p].back| ==> !IsStripped(r[p].back[k])
  {
    assert FirstWithKey(props, AnswerKey, AnswerKey(r[p])) == Some(r[p]);
    assert r[p] in props;
    var i :| 0 <= i < |w| && Card(w[i], i) == Some(r[p]);
    CardSpec(w[i], i);
  }

  /** A kept card is the card of some word of the window. */
  lemma KeptFrom(w: seq<string>, props: seq<Flashcard>, r: seq<Flashcard>, p: nat) returns (i: nat)
    requires props == Proposals(w)
    requires r == Dedup(props, AnswerKey, {})
    requires p < |r|
    ensures i < |w| && Card(w[i], i) == Some(r[p])
  {
    assert FirstWithKey(props, AnswerKey, AnswerKey(r[p])) == Some(r[p]);
    assert r[p] in props;
    i :| 0 <= i < |w| && Card(w[i], i) == Some(r[p]);
  }

  /** Two kept cards of `DedupFacts` have different ids. */
  lemma DedupIdsDiffer(w: seq<string>, props: seq<Flashcard>, r: seq<Flashcard>, p: nat, q: nat)
    requires props == Proposals(w)
    requires r == Dedup(props, AnswerKey, {})
    requires p < q < |r|
    ensures r[p].id != r[q].id
  {
    assert AnswerKey(r[p]) != AnswerKey(r[q]);
    var i := KeptFrom(w, props, r, p);
    var j := KeptFrom(w, props, r, q);
    CardSpec(w[i], i);
    CardSpec(w[j], j);
    IdsDiffer(i, j);
  }

  /** The seen-set fold keeps the same cards as the reference
      deduplication: keep a card, drop later cards with its answer. */
  lemma FlashcardsIsNub(text: string)
    ensures Flashcards(text) == Nub(Proposals(Window(text)), AnswerKey)
  {
    var props := Proposals(Window(text));
    DedupIsNub(props, AnswerKey, {});
    WithoutNone(props, AnswerKey);
  }
}
