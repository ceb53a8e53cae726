/** `generateTimeline` (utils/generator.ts): every sentence carrying a year
    from 1000 to 2099 whose cleaned text is of a reasonable length proposes
    an event; the first sentence with a given year wins, and the events are
    ordered by year. */
module Timeline {
  import opened Wrappers
  import opened Chars
  import opened Text
  import opened Sorting
  import opened FirstWins
  import opened Sentences
  import opened Cleaning
  import opened StudyTypes

  /** `/\b(1\d{3}|20\d{2})\b/` matches at index `i`: four digits, the first
      `1` or the first two `20`, with no word character on either side. */
  predicate YearAt(s: string, i: int) {
    && 0 <= i && i + 4 <= |s|
    && (i == 0 || !IsWordChar(s[i - 1]))
    && (i + 4 == |s| || !IsWordChar(s[i + 4]))
    && IsDigit(s[i]) && IsDigit(s[i + 1]) && IsDigit(s[i + 2]) && IsDigit(s[i + 3])
    && (s[i] == '1' || (s[i] == '2' && s[i + 1] == '0'))
  }

  /** The leftmost match at or after `from`. */
  function YearFrom(s: string, from: nat): (r: Option<nat>)
    ensures r.Some? ==> from <= r.value && YearAt(s, r.value)
    ensures r.Some? ==> forall k :: from <= k < r.value ==> !YearAt(s, k)
    ensures r.None? ==> forall k :: from <= k ==> !YearAt(s, k)
    decreases |s| - from
  {
    if from + 4 > |s| then None
    else if YearAt(s, from) then Some(from)
    else YearFrom(s, from + 1)
  }

  /** A year as the timeline holds it: four digits, 1000 to 2099. */
  predicate ValidYear(y: string) {
    |y| == 4 && AllDigits(y) && 1000 <= DigitsValue(y) <= 2099
  }

  lemma FourDigitsValue(y: string)
    requires |y| == 4 && AllDigits(y)
    ensures DigitsValue(y) == 1000 * DigitValue(y[0]) + 100 * DigitValue(y[1]) + 10 * DigitValue(y[2]) + DigitValue(y[3])
  {
    var y3, y2, y1 := y[..3], y[..2], y[..1];
    assert y3[..2] == y2 && y2[..1] == y1 && y1[..0] == [];
    assert DigitsValue(y1) == DigitValue(y[0]);
    assert DigitsValue(y2) == 10 * DigitsValue(y1) + DigitValue(y[1]);
    assert DigitsValue(y3) == 10 * DigitsValue(y2) + DigitValue(y[2]);
    assert DigitsValue(y) == 10 * DigitsValue(y3) + DigitValue(y[3]);
  }

  /** `s.match(...)[0]`: the year of the leftmost match, if any. */
  function FindYear(s: string): (r: Option<string>)
    ensures r.Some? ==> ValidYear(r.value)
    ensures r.Some? <==> exists k :: YearAt(s, k)
    ensures r.Some? ==> exists k :: YearAt(s, k) && r.value == s[k..k + 4]
  {
    match YearFrom(s, 0)
    case None => None
    case Some(k) =>
      var y := s[k..k + 4];
      assert y[0] == s[k] && y[1] == s[k + 1] && y[2] == s[k + 2] && y[3] == s[k + 3];
      FourDigitsValue(y);
      Some(y)
  }

  /** What a timeline event satisfies: a valid year and a cleaned
      description longer than 20 and shorter than 200 characters. */
  ghost predicate ValidEvent(e: TimelineEvent) {
    && ValidYear(e.year)
    && 20 < |e.description| < 200
    && NoEntity(e.description)
    && Collapsed(e.description)
  }

  /** The event a sentence proposes, if any. */
  function Candidate(s: string): (r: Option<TimelineEvent>)
    ensures r.Some? ==> ValidEvent(r.value) && r.value.description == CleanSentence(s)
    ensures r.Some? <==> FindYear(s).Some? && 20 < |CleanSentence(s)| < 200
  {
    match FindYear(s)
    case None => None
    case Some(y) =>
      var c := CleanSentence(s);
      if 20 < |c| < 200 then Some(TimelineEvent(y, c)) else None
  }

  /** The proposed events in sentence order: exactly the events some
      sentence proposes, each once, in the order of the sentences that
      propose them. */
  function Candidates(sentences: seq<string>): (r: seq<TimelineEvent>)
    ensures Collected(Apply(sentences, Candidate), r)
    ensures forall e :: e in r <==> exists i :: 0 <= i < |sentences| && Candidate(sentences[i]) == Some(e)
  {
    FilterMap(sentences, Candidate)
  }

  /** Every proposed event is a valid one. */
  lemma CandidatesValid(sentences: seq<string>)
    ensures forall e :: e in Candidates(sentences) ==> ValidEvent(e)
  {
    forall e | e in Candidates(sentences) ensures ValidEvent(e) {
      var i :| 0 <= i < |sentences| && Candidate(sentences[i]) == Some(e);
    }
  }

  function Year(e: TimelineEvent): string {
    e.year
  }

  /** `parseInt(e.year)` on the years the timeline holds. */
  function YearValue(e: TimelineEvent): int {
    if AllDigits(e.year) then DigitsValue(e.year) else 0
  }

  /** `generateTimeline(text)`: valid events in strictly ascending year
      order (so no year twice); each is the first event proposed for its
      year, and every proposed year is present. */
  function Timeline(text: string): (r: seq<TimelineEvent>)
    ensures forall p :: 0 <= p < |r| ==> ValidEvent(r[p])
    ensures forall p, q :: 0 <= p < q < |r| ==> YearValue(r[p]) < YearValue(r[q])
    ensures forall p :: 0 <= p < |r| ==>
              FirstWithKey(Candidates(SplitSentences(text)), Year, r[p].year) == Some(r[p])
    ensures KeysOf(r, Year) == KeysOf(Candidates(SplitSentences(text)), Year)
  {
    var cands := Candidates(SplitSentences(text));
    var kept := Dedup(cands, Year, {});
    var r := SortBy(kept, YearValue);
    CandidatesValid(SplitSentences(text));
    SortedKept(cands, kept, r);
    r
  }

  /** The facts about the sorted, deduplicated events. */
  lemma SortedKept(cands: seq<TimelineEvent>, kept: seq<TimelineEvent>, r: seq<TimelineEvent>)
    requires forall e :: e in cands ==> ValidEvent(e)
    requires kept == Dedup(cands, Year, {})
    requires r == SortBy(kept, YearValue)
    ensures forall p :: 0 <= p < |r| ==> ValidEvent(r[p])
    ensures forall p, q :: 0 <= p < q < |r| ==> YearValue(r[p]) < YearValue(r[q])
    ensures forall p :: 0 <= p < |r| ==> FirstWithKey(cands, Year, r[p].year) == Some(r[p])
    ensures KeysOf(r, Year) == KeysOf(cands, Year)
  {
    forall p | 0 <= p < |r|
      ensures ValidEvent(r[p]) && FirstWithKey(cands, Year, r[p].year) == Some(r[p])
    {
      assert r[p] in multiset(kept);
      KeptEntry(cands, r[p]);
    }
    StrictlyAscending(kept, r);
    PermutationKeys(kept, r, Year);
  }

  /** An event that survives deduplication is a valid candidate and the
      first with its year. */
  lemma KeptEntry(cands: seq<TimelineEvent>, x: TimelineEvent)
    requires forall e :: e in cands ==> ValidEvent(e)
    requires x in Dedup(cands, Year, {})
    ensures ValidEvent(x) && FirstWithKey(cands, Year, x.year) == Some(x)
  {
    var kept := Dedup(cands, Year, {});
    var i :| 0 <= i < |kept| && kept[i] == x;
    assert FirstWithKey(cands, Year, Year(kept[i])) == Some(kept[i]);
  }

  /** Sorting year-distinct valid events by year value orders them
      strictly. */
  lemma StrictlyAscending(kept: seq<TimelineEvent>, r: seq<TimelineEvent>)
    requires DistinctKeys(kept, Year)
    requires multiset(r) == multiset(kept)
    requires forall p :: 0 <= p < |r| ==> ValidEvent(r[p])
    requires SortedBy(r, YearValue)
    ensures forall p, q :: 0 <= p < q < |r| ==> YearValue(r[p]) < YearValue(r[q])
  {
    PermutationDistinctKeys(kept, r, Year);
    forall p, q | 0 <= p < q < |r|
      ensures YearValue(r[p]) < YearValue(r[q])
    {
      assert Year(r[p]) != Year(r[q]);
      if YearValue(r[p]) == YearValue(r[q]) {
        DigitsValueInjective(r[p].year, r[q].year);
      }
    }
  }

  /** The timeline is, up to order, the reference deduplication of the
      proposed events: keep each event, drop later ones with its year. */
  lemma TimelineIsNub(text: string)
    ensures multiset(Timeline(text)) == multiset(Nub(Candidates(SplitSentences(text)), Year))
  {
    var cands := Candidates(SplitSentences(text));
    DedupIsNub(cands, Year, {});
    WithoutNone(cands, Year);
  }
}
