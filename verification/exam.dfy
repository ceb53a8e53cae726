/** The exam logic of components/ExamMode.tsx: question selection and
    duration when an exam starts, the countdown, the clock display, the
    Previous/Next buttons and the scoring fold of `handleSubmit`. Marks are
    integers here (an AI grade may be fractional in the source). */
module Exam {
  import opened Wrappers
  import opened Chars
  import opened Text
  import opened StudyTypes

  // ---------------------------------------------------------------------------
  // Starting an exam
  // ---------------------------------------------------------------------------

  /** `xs.slice(0, n)`: a negative end counts back from the end. */
  function SliceTo<T>(xs: seq<T>, n: int): (r: seq<T>)
    ensures |r| <= |xs| && r == xs[..|r|]
    ensures n >= 0 ==> |r| == if n <= |xs| then n else |xs|
    ensures n < 0 ==> |r| == if |xs| + n >= 0 then |xs| + n else 0
  {
    var end := if n >= 0 then (if n <= |xs| then n else |xs|)
               else (if |xs| + n >= 0 then |xs| + n else 0);
    xs[..end]
  }

  /** The questions of a new exam. With an AI key and a generator, the
      generated questions when there are some (`generated` is None when
      generation failed), else the initial pool; without, the first
      `count` questions of the pool. */
  function ExamQuestions(initial: seq<QuizQuestion>, useAi: bool, generated: Option<seq<QuizQuestion>>,
                         count: int): (r: seq<QuizQuestion>)
    ensures useAi && generated.Some? && |generated.value| > 0 ==> r == generated.value
    ensures useAi && (generated.None? || |generated.value| == 0) ==> r == initial
    ensures !useAi ==> |r| <= |initial| && r == initial[..|r|]
    ensures !useAi && 0 <= count ==> |r| == if count <= |initial| then count else |initial|
  {
    if useAi then
      if generated.Some? && |generated.value| > 0 then generated.value else initial
    else SliceTo(initial, count)
  }

  /** The per-question time allowance in seconds: two minutes for a
      question typed `short_answer`, one for any other. */
  function Allowance(q: QuizQuestion): nat {
    if q.kind == Some(ShortAnswer) then 120 else 60
  }

  /** The exam duration, the sum of the allowances. */
  function Duration(qs: seq<QuizQuestion>): nat {
    if |qs| == 0 then 0 else Duration(qs[..|qs| - 1]) + Allowance(qs[|qs| - 1])
  }

  function CountShort(qs: seq<QuizQuestion>): (r: nat)
    ensures r <= |qs|
  {
    if |qs| == 0 then 0
    else CountShort(qs[..|qs| - 1]) + (if qs[|qs| - 1].kind == Some(ShortAnswer) then 1 else 0)
  }

  /** The duration is a minute per question and one more per short-answer
      question. */
  lemma {:induction false} DurationFormula(qs: seq<QuizQuestion>)
    ensures Duration(qs) == 60 * |qs| + 60 * CountShort(qs)
    decreases |qs|
  {
    if |qs| > 0 {
      DurationFormula(qs[..|qs| - 1]);
    }
  }

  // ---------------------------------------------------------------------------
  // The countdown and the clock
  // ---------------------------------------------------------------------------

  datatype Stage = Setup | Active | Results

  /** The interval is installed only while the exam is active, not
      submitted and time remains. */
  predicate TimerRuns(stage: Stage, submitted: bool, timeLeft: int) {
    stage == Active && !submitted && timeLeft > 0
  }

  /** One tick, `p <= 0 ? 0 : p - 1`. */
  function Tick(p: int): (r: int)
    ensures p > 0 ==> r == p - 1
    ensures p <= 0 ==> r == 0
    ensures r >= 0
  {
    if p <= 0 then 0 else p - 1
  }

  /** One second of the exam clock: a tick when the timer runs, no change
      otherwise. */
  function Second(stage: Stage, submitted: bool, timeLeft: int): (r: int)
    ensures TimerRuns(stage, submitted, timeLeft) ==> r == timeLeft - 1 && r >= 0
    ensures !TimerRuns(stage, submitted, timeLeft) ==> r == timeLeft
  {
    if TimerRuns(stage, submitted, timeLeft) then Tick(timeLeft) else timeLeft
  }

  /** `n` seconds of an active, unsubmitted exam. */
  function Run(timeLeft: int, n: nat): int {
    if n == 0 then timeLeft else Run(Second(Active, false, timeLeft), n - 1)
  }

  /** From a non-negative time the clock counts down to zero and stays
      there: after `n` seconds `max(t - n, 0)` remain. */
  lemma {:induction false} RunCountsDown(t: int, n: nat)
    requires t >= 0
    ensures Run(t, n) == if t - n >= 0 then t - n else 0
    decreases n
  {
    if n > 0 {
      RunCountsDown(Second(Active, false, t), n - 1);
    }
  }

  /** `formatTime(seconds)`: minutes without a leading zero, a colon, and
      the seconds padded to two digits. The text reads back as the same number of seconds. */
  function FormatTime(seconds: nat): (r: string)
    ensures exists m, s :: r == m + ":" + s
              && |m| >= 1 && AllDigits(m) && (|m| > 1 ==> m[0] != '0')
              && |s| == 2 && AllDigits(s)
              && DigitsValue(s) < 60 && 60 * DigitsValue(m) + DigitsValue(s) == seconds
  {
    ClockDigits(seconds / 60, seconds % 60);
    Clock(seconds / 60, seconds % 60)
  }

  /** Minutes, a colon, and the seconds padded to two digits. */
  function Clock(q: nat, r: nat): string {
    NatToString(q) + ":" + PadTwo(NatToString(r))
  }

  /** Both parts of the clock text are digits worth `q` and `r`. */
  lemma ClockDigits(q: nat, r: nat)
    requires r < 60
    ensures var m, s := NatToString(q), PadTwo(NatToString(r));
            && |m| >= 1 && AllDigits(m) && DigitsValue(m) == q
            && |s| == 2 && AllDigits(s) && DigitsValue(s) == r
  {
    ShortNatString(r);
    PadTwoValue(NatToString(r));
  }

  /** A number below one hundred is written with at most two digits. */
  lemma ShortNatString(n: nat)
    requires n < 100
    ensures |NatToString(n)| <= 2
  {
    if n >= 10 {
      assert |NatToString(n / 10)| == 1;
    }
  }

  /** Padding with zeros keeps the digits and their value. */
  lemma PadTwoValue(d: string)
    requires AllDigits(d) && |d| <= 2
    ensures |PadTwo(d)| == 2 && AllDigits(PadTwo(d)) && DigitsValue(PadTwo(d)) == DigitsValue(d)
  {
    var p := PadTwo(d);
    if |d| == 0 {
      assert p == "00";
      assert p[..1] == "0" && p[..1][..0] == [];
    } else if |d| == 1 {
      assert p == "0" + d;
      assert p[..1] == "0" && p[..1][..0] == [];
      assert d[..0] == [];
    }
  }

  /** Reads `m:ss` back into seconds. */
  function ParseTime(t: string): (r: Option<nat>)
  {
    match IndexOfChar(t, ':')
    case None => None
    case Some(k) =>
      var m, s := t[..k], t[k + 1..];
      if AllDigits(m) && AllDigits(s) then Some(60 * DigitsValue(m) + DigitsValue(s)) else None
  }

  /** In `m:s` with `m` all digits the first colon follows `m`. */
  lemma JoinedParts(m: string, s: string)
    requires AllDigits(m)
    ensures IndexOfChar(m + ":" + s, ':') == Some(|m|)
    ensures (m + ":" + s)[..|m|] == m && (m + ":" + s)[|m| + 1..] == s
  {
    var t := m + ":" + s;
    assert t[|m|] == ':';
    assert forall j :: 0 <= j < |m| ==> t[j] == m[j];
  }

  /** Reading a text whose first colon is at `k`. */
  lemma ParseAt(t: string, k: nat, m: string, s: string)
    requires IndexOfChar(t, ':') == Some(k)
    requires m == t[..k] && s == t[k + 1..] && AllDigits(m) && AllDigits(s)
    ensures ParseTime(t) == Some(60 * DigitsValue(m) + DigitsValue(s))
  {
  }

  /** Minutes and seconds joined by the colon read back as their value. */
  lemma ParseJoined(m: string, s: string)
    requires AllDigits(m) && AllDigits(s)
    ensures ParseTime(m + ":" + s) == Some(60 * DigitsValue(m) + DigitsValue(s))
  {
    JoinedParts(m, s);
    ParseAt(m + ":" + s, |m|, m, s);
  }

  /** The clock text round-trips. */
  lemma ParseFormatTime(seconds: nat)
    ensures ParseTime(FormatTime(seconds)) == Some(seconds)
  {
    var q, r := seconds / 60, seconds % 60;
    ParseClock(q, r);
    assert 60 * q + r == seconds;
    assert FormatTime(seconds) == Clock(q, r);
  }

  /** A clock text reads back as its minutes and seconds. */
  lemma ParseClock(q: nat, r: nat)
    requires r < 60
    ensures ParseTime(Clock(q, r)) == Some(60 * q + r)
  {
    ClockDigits(q, r);
    ParseJoined(NatToString(q), PadTwo(NatToString(r)));
  }

  // ---------------------------------------------------------------------------
  // Navigation
  // ---------------------------------------------------------------------------

  /** Previous: `Math.max(0, i - 1)`. */
  function Previous(i: int): int {
    if i - 1 >= 0 then i - 1 else 0
  }

  /** Next: `Math.min(n - 1, i + 1)`. */
  function Next(i: int, n: int): int {
    if i + 1 <= n - 1 then i + 1 else n - 1
  }

  /** Submit replaces Next on the last question. */
  predicate SubmitOffered(i: int, n: int) {
    i == n - 1
  }

  /** Previous and Next keep a valid index valid, Next moves forward by
      one exactly when Submit is not offered, and Previous undoes Next. */
  lemma NavigationStaysInRange(i: int, n: int)
    requires 0 <= i < n
    ensures 0 <= Previous(i) < n && 0 <= Next(i, n) < n
    ensures Next(i, n) == i + 1 <==> !SubmitOffered(i, n)
    ensures !SubmitOffered(i, n) ==> Previous(Next(i, n)) == i
    ensures i > 0 ==> Next(Previous(i), n) == i
  {
  }

  // ---------------------------------------------------------------------------
  // Scoring
  // ---------------------------------------------------------------------------

  /** What the candidate recorded, keyed by question id: typed or chosen
      answers, AI grades, and self-grades. */
  datatype Responses = Responses(
    answers: map<string, string>,
    grades: map<string, int>,
    selfGrades: map<string, bool>)

  /** `q.marks || 1`: a missing or zero mark counts as one. */
  function Marks(q: QuizQuestion): (r: int)
    ensures r != 0
    ensures q.marks.Some? && q.marks.value != 0 ==> r == q.marks.value
    ensures q.marks.None? || q.marks.value == 0 ==> r == 1
  {
    match q.marks
    case None => 1
    case Some(m) => if m == 0 then 1 else m
  }

  /** Graded by hand or by AI: typed `short_answer`, or without options. */
  predicate IsShort(q: QuizQuestion) {
    q.kind == Some(ShortAnswer) || q.options.None?
  }

  /** The marks one question earns. A short answer earns its AI grade when
      there is one, else full marks for a true self-grade, else nothing. A
      multiple-choice question earns full marks exactly when the recorded
      answer equals the correct one, both possibly absent. */
  function Earned(q: QuizQuestion, resp: Responses): (r: int)
    ensures IsShort(q) && q.id in resp.grades ==> r == resp.grades[q.id]
    ensures IsShort(q) && q.id !in resp.grades ==>
              r == (if q.id in resp.selfGrades && resp.selfGrades[q.id] then Marks(q) else 0)
    ensures !IsShort(q) ==> (r == Marks(q) <==> Lookup(resp.answers, q.id) == q.correctAnswer)
    ensures !IsShort(q) ==> (r == 0 <==> Lookup(resp.answers, q.id) != q.correctAnswer)
  {
    if IsShort(q) then
      match Lookup(resp.grades, q.id)
      case Some(g) => g
      case None => if Lookup(resp.selfGrades, q.id) == Some(true) then Marks(q) else 0
    else if Lookup(resp.answers, q.id) == q.correctAnswer then Marks(q)
    else 0
  }

  /** The score and the maximum of `questions.forEach`, as sums. */
  function RawScore(qs: seq<QuizQuestion>, resp: Responses): int {
    if |qs| == 0 then 0 else RawScore(qs[..|qs| - 1], resp) + Earned(qs[|qs| - 1], resp)
  }

  function MaxScore(qs: seq<QuizQuestion>): int {
    if |qs| == 0 then 0 else MaxScore(qs[..|qs| - 1]) + Marks(qs[|qs| - 1])
  }

  /** An exam whose questions carry no mark (or a zero mark) is worth one
      mark per question. */
  lemma {:induction false} UnmarkedMaxScore(qs: seq<QuizQuestion>)
    requires forall i :: 0 <= i < |qs| ==> qs[i].marks.None? || qs[i].marks == Some(0)
    ensures MaxScore(qs) == |qs|
  {
    if |qs| > 0 {
      UnmarkedMaxScore(qs[..|qs| - 1]);
    }
  }

  /** `handleSubmit`: the loop over the questions accumulating the score and
      the maximum. */
  method Submit(qs: seq<QuizQuestion>, resp: Responses) returns (raw: int, max: int)
    ensures raw == RawScore(qs, resp)
    ensures max == MaxScore(qs)
  {
    raw, max := 0, 0;
    var i := 0;
    while i < |qs|
      invariant 0 <= i <= |qs|
      invariant raw == RawScore(qs[..i], resp)
      invariant max == MaxScore(qs[..i])
    {
      assert qs[..i + 1][..i] == qs[..i];
      max := max + Marks(qs[i]);
      raw := raw + Earned(qs[i], resp);
      i := i + 1;
    }
    assert qs[..|qs|] == qs;
  }

  /** Grades that respect the marks: every AI grade of a question lies
      between zero and its marks. */
  ghost predicate GradesWithinMarks(qs: seq<QuizQuestion>, resp: Responses) {
    forall i :: 0 <= i < |qs| && IsShort(qs[i]) && qs[i].id in resp.grades ==>
      0 <= resp.grades[qs[i].id] <= Marks(qs[i])
  }

  /** With positive marks and grades within them, the score lies between
      zero and the maximum. */
  lemma {:induction false} ScoreWithinMax(qs: seq<QuizQuestion>, resp: Responses)
    requires forall i :: 0 <= i < |qs| ==> Marks(qs[i]) > 0
    requires GradesWithinMarks(qs, resp)
    ensures 0 <= RawScore(qs, resp) <= MaxScore(qs)
    decreases |qs|
  {
    if |qs| > 0 {
      var init := qs[..|qs| - 1];
      assert forall i :: 0 <= i < |init| ==> init[i] == qs[i];
      ScoreWithinMax(init, resp);
    }
  }

  /** A perfect multiple-choice exam scores the maximum. */
  lemma {:induction false} AllCorrectScoresMax(qs: seq<QuizQuestion>, resp: Responses)
    requires forall i :: 0 <= i < |qs| ==> !IsShort(qs[i]) && Lookup(resp.answers, qs[i].id) == qs[i].correctAnswer
    ensures RawScore(qs, resp) == MaxScore(qs)
    decreases |qs|
  {
    if |qs| > 0 {
      var init := qs[..|qs| - 1];
      assert forall i :: 0 <= i < |init| ==> init[i] == qs[i];
      AllCorrectScoresMax(init, resp);
    }
  }

  /** A multiple-choice question without a correct answer earns its marks
      when left unanswered: both sides of the comparison are undefined. */
  lemma UnansweredWithoutKeyScores(q: QuizQuestion, resp: Responses)
    requires !IsShort(q) && q.correctAnswer.None? && q.id !in resp.answers
    ensures Earned(q, resp) == Marks(q)
  {
  }
}
