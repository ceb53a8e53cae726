/** The round-based quiz player of wikischolar/components/Quiz.tsx: the
    questions are played five at a time; a question is answered by one
    click; the round ends on the last question and can be retried or
    followed by the next one. */
module QuizRound {
  import opened Wrappers
  import opened StudyTypes

  const PerRound: nat := 5

  /** `questions.slice(5r, 5r + 5)`. */
  function RoundQuestions(qs: seq<QuizQuestion>, round: nat): (r: seq<QuizQuestion>)
    ensures |r| <= PerRound
    ensures |r| == 0 <==> |qs| <= PerRound * round
    ensures forall j :: 0 <= j < |r| ==> PerRound * round + j < |qs| && r[j] == qs[PerRound * round + j]
  {
    var lo := if PerRound * round <= |qs| then PerRound * round else |qs|;
    var hi := if PerRound * round + PerRound <= |qs| then PerRound * round + PerRound else |qs|;
    qs[lo..hi]
  }

  /** `Math.ceil(n / 5)`. */
  function TotalRounds(n: nat): (r: nat)
    ensures PerRound * r >= n
    ensures r > 0 ==> PerRound * (r - 1) < n
  {
    (n + PerRound - 1) / PerRound
  }

  /** The next-round button replaces the completion notice. */
  predicate HasMoreRounds(round: nat, n: nat) {
    round < TotalRounds(n) - 1
  }

  /** There is another round exactly when questions remain after this one. */
  lemma HasMoreRoundsIff(round: nat, n: nat)
    ensures HasMoreRounds(round, n) <==> PerRound * (round + 1) < n
  {
  }

  /** The rounds `0 .. k - 1` laid end to end. */
  function Played(qs: seq<QuizQuestion>, k: nat): seq<QuizQuestion> {
    if k == 0 then [] else Played(qs, k - 1) + RoundQuestions(qs, k - 1)
  }

  /** The first `k` rounds cover the first `5k` questions, in order. */
  lemma {:induction false} PlayedPrefix(qs: seq<QuizQuestion>, k: nat)
    ensures Played(qs, k) == qs[..if PerRound * k <= |qs| then PerRound * k else |qs|]
    decreases k
  {
    if k > 0 {
      PlayedPrefix(qs, k - 1);
      var lo := if PerRound * (k - 1) <= |qs| then PerRound * (k - 1) else |qs|;
      var hi := if PerRound * k <= |qs| then PerRound * k else |qs|;
      assert RoundQuestions(qs, k - 1) == qs[lo..hi];
      assert qs[..lo] + qs[lo..hi] == qs[..hi];
    }
  }

  /** The rounds partition the questions: every question is played in
      exactly one of the `TotalRounds` rounds. */
  lemma RoundsCoverQuestions(qs: seq<QuizQuestion>)
    ensures Played(qs, TotalRounds(|qs|)) == qs
  {
    PlayedPrefix(qs, TotalRounds(|qs|));
  }

  datatype QuizState = QuizState(
    round: nat,
    index: nat,
    score: nat,
    selected: Option<string>,
    answered: bool,
    showResult: bool)

  const Start := QuizState(0, 0, 0, None, false, false)

  /** A click on an option of the current question. Once the question is
      answered further clicks change nothing; otherwise the option is
      selected and the score rises when it is the correct answer. The
      current question must exist (the source reads its correct answer). */
  function Click(st: QuizState, qs: seq<QuizQuestion>, option: string): (r: QuizState)
    requires !st.answered ==> st.index < |RoundQuestions(qs, st.round)|
    ensures st.answered ==> r == st
    ensures !st.answered ==> r.answered && r.selected == Some(option)
    ensures !st.answered ==>
              r.score == st.score + (if Some(option) == RoundQuestions(qs, st.round)[st.index].correctAnswer then 1 else 0)
    ensures r.round == st.round && r.index == st.index && r.showResult == st.showResult
  {
    if st.answered then st
    else
      var q := RoundQuestions(qs, st.round)[st.index];
      var gain := if Some(option) == q.correctAnswer then 1 else 0;
      st.(selected := Some(option), answered := true, score := st.score + gain)
  }

  /** "Next Question" before the last question of the round, "Finish
      Round" on it. */
  function Next(st: QuizState, qs: seq<QuizQuestion>): QuizState {
    if st.index < |RoundQuestions(qs, st.round)| - 1 then
      st.(index := st.index + 1, selected := None, answered := false)
    else st.(showResult := true)
  }

  /** "Start Round r + 2": the next round from its first question with a
      fresh score. */
  function StartNextRound(st: QuizState): QuizState {
    QuizState(st.round + 1, 0, 0, None, false, false)
  }

  /** "Retry Round": the same round from its first question. */
  function RestartRound(st: QuizState): QuizState {
    st.(index := 0, score := 0, selected := None, answered := false, showResult := false)
  }

  /** What every reachable state satisfies: the current question exists
      when the round has questions, a selection is recorded exactly when
      the question is answered, and the score counts at most one point for
      each question answered so far. */
  predicate Consistent(st: QuizState, qs: seq<QuizQuestion>) {
    var n := |RoundQuestions(qs, st.round)|;
    && (n > 0 ==> st.index < n)
    && (st.answered <==> st.selected.Some?)
    && st.score <= st.index + (if st.answered then 1 else 0)
  }

  /** Every action keeps the state consistent. */
  lemma StartConsistent(qs: seq<QuizQuestion>)
    ensures Consistent(Start, qs)
  {
  }

  lemma ClickConsistent(st: QuizState, qs: seq<QuizQuestion>, option: string)
    requires Consistent(st, qs) && |RoundQuestions(qs, st.round)| > 0
    ensures Consistent(Click(st, qs, option), qs)
  {
  }

  lemma NextConsistent(st: QuizState, qs: seq<QuizQuestion>)
    requires Consistent(st, qs)
    ensures Consistent(Next(st, qs), qs)
  {
  }

  lemma RoundChangesConsistent(st: QuizState, qs: seq<QuizQuestion>)
    ensures Consistent(StartNextRound(st), qs)
    ensures Consistent(RestartRound(st), qs)
  {
  }

  /** Walking a round with Next visits its questions in order and finishes
      on the last one: from the first question, `k` presses reach question
      `k` while it exists, and the result screen once the round is done. */
  function Press(st: QuizState, qs: seq<QuizQuestion>, k: nat): QuizState
    decreases k
  {
    if k == 0 then st else Press(Next(st, qs), qs, k - 1)
  }

  lemma {:induction false} PressWalksRound(st: QuizState, qs: seq<QuizQuestion>, k: nat)
    ensures var n := |RoundQuestions(qs, st.round)|;
            var r := Press(st, qs, k);
            && r.round == st.round && r.score == st.score
            && (st.index + k < n ==> r.index == st.index + k && r.showResult == st.showResult)
            && (k > 0 && st.index + k >= n ==> r.showResult)
    decreases k
  {
    if k > 0 {
      PressWalksRound(Next(st, qs), qs, k - 1);
    }
  }

  /** Starting the next round when the button offers it lands on a
      question, and a retried round starts from its first question again. */
  lemma NextRoundHasQuestions(st: QuizState, qs: seq<QuizQuestion>)
    requires HasMoreRounds(st.round, |qs|)
    ensures |RoundQuestions(qs, StartNextRound(st).round)| > 0
    ensures StartNextRound(st).score == 0 && !StartNextRound(st).answered
  {
    HasMoreRoundsIff(st.round, |qs|);
  }

  lemma RestartKeepsRound(st: QuizState, qs: seq<QuizQuestion>)
    ensures RestartRound(st).round == st.round && RestartRound(st).index == 0 && RestartRound(st).score == 0
    ensures RestartRound(RestartRound(st)) == RestartRound(st)
  {
  }

  /** The score shown over the round size never exceeds it, so the perfect
      score message needs a full round of five answered correctly. */
  lemma ScoreAtMostRound(st: QuizState, qs: seq<QuizQuestion>)
    requires Consistent(st, qs) && |RoundQuestions(qs, st.round)| > 0
    ensures st.score <= |RoundQuestions(qs, st.round)| <= PerRound
  {
  }

  /** The "Start New AI Round!" button asks for no further rounds and yet
      for questions beyond the current round; the two never hold together,
      so the button is never shown. */
  predicate NewAiRoundShown(canGenerate: bool, generating: Option<bool>, round: nat, n: nat) {
    canGenerate && !HasMoreRounds(round, n) && generating == Some(false) && n > (round + 1) * PerRound
  }

  lemma NewAiRoundNeverShown(canGenerate: bool, generating: Option<bool>, round: nat, n: nat)
    ensures !NewAiRoundShown(canGenerate, generating, round, n)
  {
    HasMoreRoundsIff(round, n);
  }
}
