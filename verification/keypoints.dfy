/** `generateKeyPoints` (utils/generator.ts): score the first 300 sentences,
    order them by descending score keeping ties in text order, and keep the
    cleaned text of the first eight. */
module KeyPoints {
  import opened Chars
  import opened Text
  import opened Sorting
  import opened Sentences
  import opened Cleaning

  const SentenceWindow: nat := 300
  const MaxKeyPoints: nat := 8

  /** `/\d{4}/` matches: four digits in a row somewhere. */
  predicate HasFourDigits(s: string) {
    exists i :: 0 <= i < |s| - 3 && IsDigit(s[i]) && IsDigit(s[i + 1]) && IsDigit(s[i + 2]) && IsDigit(s[i + 3])
  }

  /** `/[A-Z][a-z]+/` matches: an upper-case letter followed by a lower-case
      one. */
  predicate HasCapitalised(s: string) {
    exists i :: 0 <= i < |s| - 1 && IsUpper(s[i]) && IsLower(s[i + 1])
  }

  /** The length band rewarded, measured on the raw sentence. */
  predicate GoodLength(s: string) {
    50 < |s| < 200
  }

  /** The score of a sentence: 3 for a four-digit run, 1 for a capitalised
      word, 2 for a good length. */
  function Score(s: string): (r: int)
    ensures 0 <= r <= 6
    ensures HasFourDigits(s) ==> r >= 3
    ensures !HasFourDigits(s) ==> r <= 3
    ensures HasCapitalised(s) ==> r >= 1
    ensures GoodLength(s) ==> r >= 2
    ensures r == 0 <==> !HasFourDigits(s) && !HasCapitalised(s) && !GoodLength(s)
    ensures r == 6 <==> HasFourDigits(s) && HasCapitalised(s) && GoodLength(s)
  {
    (if HasFourDigits(s) then 3 else 0)
    + (if HasCapitalised(s) then 1 else 0)
    + (if GoodLength(s) then 2 else 0)
  }

  /** What each bonus is worth: two sentences that differ in one bonus
      only differ in score by its weight, 3 for a four-digit run, 1 for a
      capitalised word and 2 for a good length. */
  lemma ScoreWeights(s: string, t: string)
    ensures (HasCapitalised(s) == HasCapitalised(t) && GoodLength(s) == GoodLength(t)
             && HasFourDigits(s) && !HasFourDigits(t))
            ==> Score(s) == Score(t) + 3
    ensures (HasFourDigits(s) == HasFourDigits(t) && GoodLength(s) == GoodLength(t)
             && HasCapitalised(s) && !HasCapitalised(t))
            ==> Score(s) == Score(t) + 1
    ensures (HasFourDigits(s) == HasFourDigits(t) && HasCapitalised(s) == HasCapitalised(t)
             && GoodLength(s) && !GoodLength(t))
            ==> Score(s) == Score(t) + 2
  {
  }

  /** A date-like number outweighs the other two bonuses together: a
      sentence with one never ranks below a sentence without. */
  lemma FourDigitsDominate(s: string, t: string)
    requires HasFourDigits(s) && !HasFourDigits(t)
    ensures Score(s) >= Score(t)
  {
  }

  datatype Scored = Scored(text: string, score: int)

  /** The sort key: a higher score sorts first. */
  function Priority(x: Scored): int {
    -x.score
  }

  function Window(text: string): seq<string> {
    FirstSentences(text, SentenceWindow)
  }

  /** Each sentence of the window with its cleaned text and score, in text
      order. */
  function ScoreAll(sentences: seq<string>): (r: seq<Scored>)
    ensures |r| == |sentences|
    ensures forall i :: 0 <= i < |r| ==> r[i] == Scored(CleanKeyPoint(sentences[i]), Score(sentences[i]))
  {
    seq(|sentences|, i requires 0 <= i < |sentences| => Scored(CleanKeyPoint(sentences[i]), Score(sentences[i])))
  }

  /** Scored sentences in descending score order: a permutation of the
      input whose scores never increase. */
  function Rank(all: seq<Scored>): (r: seq<Scored>)
    ensures |r| == |all|
    ensures multiset(r) == multiset(all)
    ensures forall a, b :: 0 <= a < b < |r| ==> r[a].score >= r[b].score
  {
    var r := SortBy(all, Priority);
    assert forall a, b :: 0 <= a < b < |r| ==> Priority(r[a]) <= Priority(r[b]);
    r
  }

  /** Sentences of equal score keep their text order. */
  lemma RankStable(all: seq<Scored>, v: int)
    ensures WithKey(Rank(all), Priority, -v) == WithKey(all, Priority, -v)
  {
    SortByStable(all, Priority, -v);
  }

  /** The scored window in rank order. */
  function Ranked(sentences: seq<string>): seq<Scored> {
    Rank(ScoreAll(sentences))
  }

  /** The texts of the first eight entries of a ranking, in rank order. */
  function Top(ranked: seq<Scored>): (r: seq<string>)
    ensures |r| == if |ranked| <= MaxKeyPoints then |ranked| else MaxKeyPoints
    ensures forall k :: 0 <= k < |r| ==> r[k] == ranked[k].text
  {
    var n := if |ranked| <= MaxKeyPoints then |ranked| else MaxKeyPoints;
    seq(n, k requires 0 <= k < n => ranked[k].text)
  }

  /** The texts of the first eight ranked sentences of a window: at most
      eight, fewer only when the window has fewer sentences, and no dropped
      sentence outscores a kept one. */
  function TopTexts(w: seq<string>): (r: seq<string>)
    ensures |r| == if |w| <= MaxKeyPoints then |w| else MaxKeyPoints
    ensures forall k :: 0 <= k < |r| ==> r[k] == Ranked(w)[k].text
    ensures forall a, b :: 0 <= a < |r| <= b < |w| ==> Ranked(w)[a].score >= Ranked(w)[b].score
  {
    var ranked := Ranked(w);
    var r := Top(ranked);
    assert forall a, b :: 0 <= a < |r| <= b < |w| ==> ranked[a].score >= ranked[b].score;
    r
  }

  /** Each key point is the cleaned text of a window sentence. */
  lemma TopTextFromWindow(w: seq<string>, k: nat)
    requires k < |TopTexts(w)|
    ensures exists i :: 0 <= i < |w| && TopTexts(w)[k] == CleanKeyPoint(w[i])
  {
    var all := ScoreAll(w);
    var ranked := Rank(all);
    assert Ranked(w) == ranked;
    var x := ranked[k];
    assert x in multiset(ranked);
    assert x in multiset(all);
    var i :| 0 <= i < |all| && all[i] == x;
    assert TopTexts(w)[k] == x.text;
  }

  /** `generateKeyPoints(text)`: the top texts of the 300-sentence window;
      never empty, because the segmenter always yields a sentence. */
  function KeyPoints(text: string): (r: seq<string>)
    ensures 1 <= |r| <= MaxKeyPoints
  {
    TopTexts(Window(text))
  }

  /** Every key point is trimmed and free of `&nbsp;` entities. */
  lemma KeyPointsClean(text: string)
    ensures forall k :: 0 <= k < |KeyPoints(text)| ==>
              var p := KeyPoints(text)[k];
              NoEntity(p) && (|p| > 0 ==> !IsSpace(p[0]) && !IsSpace(p[|p| - 1]))
  {
    var w := Window(text);
    var r := TopTexts(w);
    assert KeyPoints(text) == r;
    forall k | 0 <= k < |r|
      ensures NoEntity(r[k]) && (|r[k]| > 0 ==> !IsSpace(r[k][0]) && !IsSpace(r[k][|r[k]| - 1]))
    {
      TopTextFromWindow(w, k);
      var i :| 0 <= i < |w| && r[k] == CleanKeyPoint(w[i]);
    }
  }

  /** The empty text gives one empty key point. */
  lemma KeyPointsOfEmpty()
    ensures KeyPoints("") == [""]
  {
    EmptyTextOneSentence();
    assert Window("") == [""];
    var r := KeyPoints("");
    assert |r| == 1;
    assert r[0] == CleanKeyPoint("");
    assert Trim("") == "";
  }
}
