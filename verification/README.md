# WikiScholar study-material core in Dafny

This project models the study logic of WikiScholar, a TypeScript/React app that
turns a Wikipedia article into study material, and proves properties of it.

The model covers:

- **The text-mining pipeline of `utils/generator.ts`:**
  - the sentence segmenter;
  - key points;
  - the timeline of dated events;
  - cloze flashcards;
  - multiple-choice quiz questions.
- **The decision logic embedded in the interface components:**
  - question selection, timing, clock display, navigation and scoring of the exam mode (`components/ExamMode.tsx`);
  - the five-question round player (`wikischolar/components/Quiz.tsx`);
  - the batched flashcard deck (`wikischolar/components/Flashcards.tsx`).
- **The pure decisions of `generateWithAI` (`wikischolar/services/aiService.ts`):**
  - which provider, key and model serve a request;
  - when the request is refused for a missing key;
  - which prompt carries how much context;
  - which endpoint, headers and body it is sent with;
  - how an unsuccessful HTTP status is reported;
  - how the JSON part of a reply is cut out of the text around it.

Everything is modelled functionally. Strings are `seq<char>`. The regular
expressions of the source become character predicates (`Chars`) and index-based
scanners. `Array.prototype.sort` is a stable insertion sort (`Sorting`). The
`Set`-based "first one wins" loops are a seen-set fold (`FirstWins.Dedup`),
proved equal to a reference deduplication (`FirstWins.Nub`).

`Math.random` is an oracle passed in as a parameter (`QuizGen.Draws`). Each draw
is a natural number reduced modulo the length of the list it indexes. React
state updates become pure transition functions over a state record.

Modules, one per file:

| module | file |
|---|---|
| `Wrappers` | wrappers.dfy |
| `Chars` | chars.dfy |
| `Text` | text.dfy |
| `Sorting` | sorting.dfy |
| `FirstWins` | firstwins.dfy |
| `StudyTypes` | studytypes.dfy |
| `Sentences` | sentences.dfy |
| `Cleaning` | cleaning.dfy |
| `KeyPoints` | keypoints.dfy |
| `Timeline` | timeline.dfy |
| `FlashcardGen` | flashcards.dfy |
| `QuizGen` | quizgen.dfy |
| `Exam` | exam.dfy |
| `QuizRound` | quizround.dfy |
| `Deck` | deck.dfy |
| `AiRequest` | airequest.dfy |

Behaviours of the code worth knowing:

- **Segmenting the empty text.** The segmenter returns `[""]` for the empty text, not an empty list. So the key points of an empty article are one empty string (`KeyPoints.KeyPointsOfEmpty`).
- **Raw lengths.** The length checks below measure the raw text, not the cleaned text:
  - the key-point length band measures the raw sentence;
  - the flashcard long-word bonus measures the raw token, before punctuation is stripped;
  - the quiz's capitalised-word target measures the raw token.
- **Exam duration.** The duration looks only at a question's `type`. A question without options but without the `short_answer` type gets one minute, although it is scored as a short answer.
- **JSON extraction.** Every reply kind other than simplify, custom, expand, real-world and diagram goes through JSON extraction, the study guide included.
- **The "Start New AI Round!" button.** Its condition can never hold (`QuizRound.NewAiRoundNeverShown`). The button is therefore never displayed. The ordinary "Start Round" button takes over once more questions arrive.
- **Unanswered multiple-choice question without a key.** Such a question earns its marks, because `undefined === undefined` (`Exam.UnansweredWithoutKeyScores`).

## Model

| member | source | states |
|---|---|---|
| Sentences.Matches | utils/generator.ts:24 | every match is one or more non-terminators followed by one or more of `.`, `!`, `?`; laid end to end the matches are exactly the stretch of the text after its leading terminators, and only non-terminators follow them, so text after the last terminator is dropped |
| Sentences.MatchesFromSpan | utils/generator.ts:24 | the matches found scanning from any position, concatenated, form the contiguous slice starting after the terminators at that position, with no terminator left after it |
| Sentences.SplitSentences | utils/generator.ts:22-25 | always at least one sentence: the matches when there are any, otherwise the whole text as the only sentence |
| Sentences.FirstSentences | utils/generator.ts:112 | the first `n` sentences in order, or all of them when there are fewer |
| Sentences.MatchesEmptyIff | utils/generator.ts:24 | the segmenter finds no sentence exactly when no non-terminator is directly followed by a terminator |
| Sentences.NoTerminatorOneSentence | utils/generator.ts:24 | a text without terminators is returned as the single sentence `[text]` |
| Sentences.EmptyTextOneSentence | utils/generator.ts:24 | the empty text yields `[""]` |
| Cleaning.ReplaceEntities | utils/generator.ts:119 | the text is cut at its `&nbsp;` entities into entity-free pieces, and the result is the same pieces glued with single spaces; no entity is left anywhere |
| Cleaning.CollapseNoEntity | utils/generator.ts:137 | collapsing white-space runs never creates an `&nbsp;` entity |
| Cleaning.CleanKeyPoint | utils/generator.ts:119 | the key point is the text with its entities turned into spaces, cut down to the slice between its first and last non-space characters; it holds no entity and neither starts nor ends with white space |
| Cleaning.CleanSentence | utils/generator.ts:137 | the cleaned sentence is the words of the text (with its entities turned into spaces) joined by single spaces: same words, same order, nothing at either end; it holds no entity |
| Cleaning.CollapsedTrimRuns | utils/generator.ts:137 | collapsing white space and trimming keeps exactly the words of the text and joins them with single spaces |
| Cleaning.Cloze | utils/generator.ts:177 | the mask stands where the first occurrence of the answer word stood, with no occurrence before it; putting the word back in its place gives the cleaned sentence |
| Cleaning.Words | utils/generator.ts:161 | splitting on the space gives at least one word, no word contains a space, and joining them with spaces restores the sentence |
| Cleaning.WordsNonEmpty | utils/generator.ts:160-161 | a non-empty cleaned sentence has no empty word |
| Cleaning.WordOccurs | utils/generator.ts:177 | every word occurs in the sentence it came from, so the cloze replacement always finds it |
| KeyPoints.Score | utils/generator.ts:115-118 | the score lies in 0..6; a four-digit run guarantees at least 3 and its absence caps it at 3; a capitalised word guarantees 1 and the raw length band 2; it is 0 exactly when no bonus applies and 6 exactly when all do |
| KeyPoints.ScoreWeights | utils/generator.ts:115-118 | each bonus is worth its own weight: two sentences that differ only in the four-digit run score 3 apart, only in a capitalised word 1 apart, only in the length band 2 apart |
| KeyPoints.FourDigitsDominate | utils/generator.ts:116-118 | a sentence with a four-digit run never scores below one without |
| KeyPoints.ScoreAll | utils/generator.ts:114-120 | each sentence of the window yields its cleaned text with the score of its raw text, in text order |
| KeyPoints.Rank | utils/generator.ts:122-123 | the ranking is a permutation of the scored sentences with scores never increasing |
| KeyPoints.RankStable | utils/generator.ts:123 | sentences of equal score keep their text order |
| KeyPoints.Top | utils/generator.ts:124-125 | the texts of the first eight ranked entries, or of all when fewer, in rank order |
| KeyPoints.TopTexts | utils/generator.ts:122-125 | at most eight key points, fewer only when the window is smaller; no dropped sentence outscores a kept one |
| KeyPoints.TopTextFromWindow | utils/generator.ts:112-119 | each key point is the cleaned text of one of the first 300 sentences |
| KeyPoints.KeyPoints | utils/generator.ts:111-126 | between one and eight key points |
| KeyPoints.KeyPointsClean | utils/generator.ts:119 | every key point is free of `&nbsp;` and trimmed |
| KeyPoints.KeyPointsOfEmpty | utils/generator.ts:111-126 | the empty article gives exactly one empty key point |
| Timeline.YearFrom | utils/generator.ts:135 | the leftmost word-bounded `1ddd` or `20dd` at or after a position, and no match before it |
| Timeline.FindYear | utils/generator.ts:135 | a year is found exactly when the sentence contains a match; it is the four characters of a match and lies in 1000..2099 |
| Timeline.Candidate | utils/generator.ts:135-146 | a sentence proposes an event exactly when it has a year and its cleaned text is longer than 20 and shorter than 200 characters; the description is that cleaned text |
| Timeline.Candidates | utils/generator.ts:133-148 | the proposed events are exactly those some sentence proposes, in sentence order, one per proposing sentence |
| Timeline.CandidatesValid | utils/generator.ts:135-146 | every proposed event has a valid year and a clean description of permitted length |
| Timeline.Timeline | utils/generator.ts:128-152 | valid events in strictly ascending year, so no year twice; each is the first event proposed for its year, and every proposed year is present |
| Timeline.SortedKept | utils/generator.ts:141-151 | sorting the first-per-year events by year keeps them valid and first for their year, keeps all years, and orders them strictly |
| Timeline.KeptEntry | utils/generator.ts:141-146 | an event kept by the seen-years loop is valid and the earliest with its year |
| Timeline.StrictlyAscending | utils/generator.ts:151 | year-distinct four-digit years sorted by integer value are strictly increasing |
| Timeline.TimelineIsNub | utils/generator.ts:131-147 | up to order the timeline is the reference deduplication of the proposed events by year |
| FlashcardGen.TokenScore | utils/generator.ts:168 | a word scores in 0..6, above zero exactly when it has a digit, a capital initial past the first word, or more than seven raw characters; a digit alone guarantees 3 |
| FlashcardGen.TokenScoreWeights | utils/generator.ts:168 | each bonus is worth its own weight: two words that differ only in having a digit score 3 apart, only in a capital initial past the first word 2 apart, only in having more than seven characters 1 apart |
| FlashcardGen.ScoreWords | utils/generator.ts:165-169 | each word is paired with its position and score, in order |
| FlashcardGen.Best | utils/generator.ts:171 | the chosen word scores at least as high as every word and strictly higher than every earlier one |
| FlashcardGen.BestIsSortHead | utils/generator.ts:171 | the head of the stable descending sort is that first best-scoring word |
| FlashcardGen.CardSpec | utils/generator.ts:160-181 | a sentence proposes a card exactly when it has 5 to 40 words and its best word scores above zero and keeps three or more characters once stripped; the back is that stripped word, the id `fc-<index>`, and the front the sentence with the first occurrence of the raw word masked |
| FlashcardGen.Proposals | utils/generator.ts:159-186 | the proposed cards are exactly those some sentence proposes, in sentence order, one per proposing sentence, so no more of them than sentences |
| FlashcardGen.IdsDiffer | utils/generator.ts:181 | different sentence indices give different card ids |
| FlashcardGen.Flashcards | utils/generator.ts:154-189 | answers of three or more characters without punctuation, pairwise different ignoring case, distinct ids; each card is the first proposed for its answer, and every proposed answer has its card |
| FlashcardGen.DedupFacts | utils/generator.ts:174-182 | the cards kept by the seen-answers loop keep the answer bounds and carry distinct ids |
| FlashcardGen.FlashcardsIsNub | utils/generator.ts:157-179 | the seen-answers loop equals the reference deduplication by lower-cased answer: a duplicate drops its sentence without a retry |
| QuizGen.CorpusWords | utils/generator.ts:195 | one stripped corpus word per white-space separated piece, never an empty list |
| QuizGen.ProperNouns | utils/generator.ts:196 | the distinct corpus words that are a capital followed by lower-case letters, longer than four, and nothing else |
| QuizGen.Numbers | utils/generator.ts:197 | the distinct corpus words made only of digits, and nothing else |
| QuizGen.FirstWhere | utils/generator.ts:204-208 | the first position satisfying the test, with none before it; none when no position does |
| QuizGen.PickTarget | utils/generator.ts:204-210 | the target is the first word holding a digit; when there is none, the first capitalised word past the first longer than five raw characters; none exactly when neither exists |
| QuizGen.TargetSurvivesStrip | utils/generator.ts:213-214 | the stripped target is never empty |
| QuizGen.Add | utils/generator.ts:218-226 | adding to the insertion-ordered set keeps the existing options in place, adds the value at the end when it is new, and changes nothing when it is already present |
| QuizGen.Fill | utils/generator.ts:222-229 | the distractor loop keeps the target first, the options distinct and at most four; it adds only acceptable draws, and adds the current draw when it is acceptable and there is room; a full option set is left as it is |
| QuizGen.FillCanReach | utils/generator.ts:222-229 | every non-empty pool word other than the target is reached by some sequence of draws |
| QuizGen.FillFirstDraw | utils/generator.ts:224-226 | an acceptable first draw is among the final options |
| QuizGen.FillExhausts | utils/generator.ts:222-229 | when the loop ends short of four options, every acceptable draw of the attempts it had is among them |
| QuizGen.FillTakes | utils/generator.ts:222-229 | when the loop ends short of four options, the draw of any one remaining attempt is among them when acceptable |
| QuizGen.FillInOrder | utils/generator.ts:222-229 | an acceptable draw is missing from the options only when the attempts before it had already filled four: the options are the first acceptable draws in attempt order |
| QuizGen.FillSkips | utils/generator.ts:222-229 | one attempt of the previous row: an acceptable draw left out means the earlier attempts alone filled the options |
| QuizGen.Fallback | utils/generator.ts:231-234 | the extra draw from all corpus words is added when there is room and it is acceptable, and nothing else is ever added; a full option set is left as it is |
| QuizGen.Shuffle | utils/generator.ts:241 | the shuffled options are a permutation of the option set |
| QuizGen.ShuffleKeepsOptions | utils/generator.ts:241 | shuffling keeps the options distinct and keeps every one of them |
| QuizGen.Options | utils/generator.ts:217-234 | the assembled options start with the target, are distinct and at most four; every other option is one of the 20 pool draws or the fallback draw; an acceptable first draw is always taken; an acceptable draw is left out only when the attempts before it filled four options; and an option set short of four holds every acceptable pool draw and the acceptable fallback draw |
| QuizGen.QuestionSpec | utils/generator.ts:199-245 | a sentence yields a question exactly when it has ten or more words, a target, and four options; the question is multiple choice worth one mark, its answer is the stripped target, its four distinct non-empty options include the answer and otherwise come from the pool or the corpus, and unmasking it restores the cleaned sentence |
| QuizGen.ShuffledOptions | utils/generator.ts:236-242 | four assembled options, shuffled, are still four distinct non-empty strings holding the answer, the others from the sources |
| QuizGen.Questions | utils/generator.ts:199-247 | the questions are exactly those some sentence of the window yields, in sentence order, one per yielding sentence; well-formed, with distinct ids, no more of them than sentences |
| QuizGen.QuizIdsDiffer | utils/generator.ts:238 | different sentence indices give different question ids |
| QuizGen.Quiz | utils/generator.ts:191-250 | for every oracle, exactly the questions the sentences of the 500-sentence window yield, in sentence order; well-formed, with distinct ids |
| Sorting.SortBy | utils/generator.ts:151 | the sorted sequence is ordered by the key and a permutation of the input |
| Sorting.SortByStable | utils/generator.ts:123 | for every key value the elements carrying it keep their relative order |
| Sorting.SortHeadIsFirstBest | utils/generator.ts:171 | the head of the sort is the first element of least key |
| FirstWins.Dedup | utils/generator.ts:141-142 | the seen-set fold keeps distinct keys, none already seen, every unseen key, and for each key its first element |
| FirstWins.DedupIsNub | utils/generator.ts:175-179 | the seen-set fold equals the reference: keep an element, drop every later one with its key |
| FirstWins.Unique | utils/generator.ts:196-197 | `[...new Set(xs)]` has no duplicates and the same members as `xs` |
| Text.ReplaceFirst | utils/generator.ts:177 | a string pattern replaces only its first occurrence, leaving the text before and after it intact; the text is unchanged when the pattern does not occur |
| Text.ReplaceFirstRestores | utils/generator.ts:215 | putting the pattern back where the replacement went restores the text |
| Text.ReplaceAllLeavesNone | utils/generator.ts:119 | replacing every occurrence of a pattern by one character outside it leaves no occurrence |
| Text.ReplaceAllPieces | utils/generator.ts:119 | replacing every occurrence cuts the text, each time at the leftmost occurrence left, into pieces holding none, and glues the same pieces with the replacement |
| Text.PiecesDetermine | utils/generator.ts:119 | the leftmost cut is unique: any such cut glued with the replacement is the left-to-right replacement, even for a pattern that overlaps itself |
| Text.ReplaceAllFree | utils/generator.ts:119 | text without the pattern is unchanged by the replacement |
| Text.CollapseSpaces | utils/generator.ts:137 | only single plain spaces remain, the non-space content is unchanged, and a leading space exactly when the input began with white space |
| Text.CollapseKeepsRuns | utils/generator.ts:137 | collapsing white space keeps the words of the text, each whole and in order, so spaces fall between the same words |
| Text.CollapseLast | utils/generator.ts:137 | the collapsed text ends in a space exactly when the input ended in white space |
| Text.RunsTrim | utils/generator.ts:137 | trimming keeps the words of the text |
| Text.CollapsedJoinsRuns | utils/generator.ts:137 | a collapsed text without a space at either end is its words joined by single spaces |
| Text.Trim | utils/generator.ts:119 | a slice of the input with no white space at either end and only white space outside it, keeping every non-space character in order |
| Text.Split | utils/generator.ts:161 | at least one piece, none containing the separator, joining them back restores the text |
| Text.SplitSpaces | utils/generator.ts:195 | at least one piece, none containing white space; joining the pieces with single spaces gives the collapsed text |
| Text.SplitSpacesRuns | utils/generator.ts:195 | the pieces are the words of the text in order, with one empty piece before them when the text starts with white space and one after when it ends with white space |
| Text.Strip | utils/generator.ts:174 | a character is in the result exactly when it is in the text and is not one of `.,;!?()"`; the result is no longer than the text, and text without punctuation is unchanged |
| Text.StripConcat | utils/generator.ts:174 | stripping distributes over concatenation |
| Text.NatToString | utils/generator.ts:181 | decimal digits without a leading zero, reading back as the number |
| Text.IntToString | wikischolar/services/aiService.ts:217 | a minus sign exactly when the number is negative, then decimal digits without a leading zero that read back as its magnitude |
| Text.PadTwo | components/ExamMode.tsx:142 | `padStart(2, '0')` keeps the text at its end and fills with zeros |
| Text.DigitsValueInjective | utils/generator.ts:151 | equal-length digit strings with the same integer value are equal |
| Exam.SliceTo | components/ExamMode.tsx:67 | `slice(0, n)` is a prefix whose length is `n` capped at the length, or counts back from the end for negative `n` |
| Exam.ExamQuestions | components/ExamMode.tsx:54-68 | with AI, a non-empty generation replaces the pool and a failed or empty one keeps it; without AI, the first `questionCount` questions of the pool |
| Exam.DurationFormula | components/ExamMode.tsx:72 | the duration is one minute per question plus one more per short-answer question |
| Exam.Tick | components/ExamMode.tsx:83 | a tick lowers a positive time by one and never goes below zero |
| Exam.Second | components/ExamMode.tsx:82-83 | the clock moves only while the exam is active, unsubmitted and time remains, and then by exactly one second |
| Exam.RunCountsDown | components/ExamMode.tsx:81-85 | after `n` seconds `max(t - n, 0)` remain |
| Exam.FormatTime | components/ExamMode.tsx:139-143 | the text is minutes without a leading zero, a colon, and two digits of seconds below 60, whose values give back the number of seconds |
| Exam.ClockDigits | components/ExamMode.tsx:140-142 | both parts of the clock are digit strings worth the minutes and the seconds, the seconds exactly two digits |
| Exam.PadTwoValue | components/ExamMode.tsx:142 | zero-padding keeps the value of the digits |
| Exam.ParseFormatTime | components/ExamMode.tsx:139-143 | reading the clock text back gives the number of seconds it was made from |
| Exam.ParseClock | components/ExamMode.tsx:139-143 | a clock text reads back as its minutes and seconds |
| Exam.NavigationStaysInRange | components/ExamMode.tsx:450-461 | Previous and Next keep the index among the questions; Next advances exactly when Submit is not offered; Previous undoes Next and Next undoes Previous |
| Exam.Marks | components/ExamMode.tsx:117 | a missing or zero mark counts as one; any other mark is kept |
| Exam.UnmarkedMaxScore | components/ExamMode.tsx:116-118 | an exam whose questions carry no marks (or zero marks) is out of one mark per question |
| Exam.Earned | components/ExamMode.tsx:120-130 | a short answer earns its AI grade first, else full marks for a true self-grade, else nothing; a multiple-choice question earns its marks exactly when the recorded answer equals the correct one, and nothing otherwise |
| Exam.Submit | components/ExamMode.tsx:112-137 | the submit loop computes the sum of earned marks and the sum of marks |
| Exam.ScoreWithinMax | components/ExamMode.tsx:116-131 | with positive marks and grades within them, the score lies between zero and the maximum |
| Exam.AllCorrectScoresMax | components/ExamMode.tsx:127-130 | a perfectly answered multiple-choice exam scores the maximum |
| Exam.UnansweredWithoutKeyScores | components/ExamMode.tsx:129 | a multiple-choice question with no correct answer earns its marks when left unanswered |
| QuizRound.RoundQuestions | wikischolar/components/Quiz.tsx:25-26 | round `r` holds questions `5r` onward, at most five, empty exactly when the questions run out before it |
| QuizRound.TotalRounds | wikischolar/components/Quiz.tsx:27 | the fewest rounds of five that hold all questions |
| QuizRound.HasMoreRoundsIff | wikischolar/components/Quiz.tsx:27-28 | another round is offered exactly when questions remain after this one |
| QuizRound.PlayedPrefix | wikischolar/components/Quiz.tsx:25-26 | the first `k` rounds, in order, are the first `5k` questions |
| QuizRound.RoundsCoverQuestions | wikischolar/components/Quiz.tsx:25-27 | all rounds together play every question once, in order |
| QuizRound.Click | wikischolar/components/Quiz.tsx:38-48 | once answered, clicks change nothing; otherwise the option is selected and the score rises by one exactly when it is the correct answer |
| QuizRound.StartConsistent | wikischolar/components/Quiz.tsx:15-22 | the initial state is consistent |
| QuizRound.ClickConsistent | wikischolar/components/Quiz.tsx:38-48 | answering keeps the state consistent: a selection is recorded exactly when answered, and the score counts at most one point per answered question |
| QuizRound.NextConsistent | wikischolar/components/Quiz.tsx:50-58 | Next keeps the current question inside the round and the state consistent |
| QuizRound.RoundChangesConsistent | wikischolar/components/Quiz.tsx:60-75 | starting the next round and retrying the round leave a consistent state |
| QuizRound.PressWalksRound | wikischolar/components/Quiz.tsx:50-58 | pressing Next `k` times reaches question `k` while it exists and the result screen once the round is done, keeping round and score |
| QuizRound.NextRoundHasQuestions | wikischolar/components/Quiz.tsx:60-67 | when the next-round button is offered the new round has questions and starts unanswered with score zero |
| QuizRound.RestartKeepsRound | wikischolar/components/Quiz.tsx:69-75 | retrying keeps the round, returns to its first question with score zero, and retrying twice is retrying once |
| QuizRound.ScoreAtMostRound | wikischolar/components/Quiz.tsx:93-96 | the shown score never exceeds the round size, which is at most five |
| QuizRound.NewAiRoundNeverShown | wikischolar/components/Quiz.tsx:139 | the "Start New AI Round!" condition never holds |
| Deck.Shown | wikischolar/components/Flashcards.tsx:23 | the visible cards are the first `visibleCount` cards, or all when fewer |
| Deck.FlipTwice | wikischolar/components/Flashcards.tsx:70 | a click turns the card over, and two clicks restore it |
| Deck.FreshInRange | wikischolar/components/Flashcards.tsx:17-21 | after a deck change the current card is a visible card |
| Deck.NavigationInRange | wikischolar/components/Flashcards.tsx:35-47 | Next, Previous and the reset-batch button keep the current card among the visible ones; Previous undoes Next and Next undoes Previous |
| Deck.ForwardWraps | wikischolar/components/Flashcards.tsx:38 | `k` presses of Next land on card `(i + k) mod v` without changing the visible count |
| Deck.FullCircle | wikischolar/components/Flashcards.tsx:38 | pressing Next once per visible card returns to the same card |
| Deck.LoadMoreRevealsNext | wikischolar/components/Flashcards.tsx:49-57 | when offered, loading more reveals exactly as many cards as its label announces, at least one, and makes the first newly visible card current, face down |
| Deck.LoadMoreNeedsOffer | wikischolar/components/Flashcards.tsx:128 | without hidden cards, loading more would leave the current card outside the visible ones, which is why it is offered only while cards remain |
| AiRequest.Resolve | wikischolar/services/aiService.ts:85-111 | text requests use the main settings; a diagram with a separate image model uses its provider (Puter when unset), its model (the default image model when unset) and its key when not blank; a diagram without one and without a main key falls back to Puter; the image protocol applies exactly to diagrams served by OpenRouter or Puter |
| AiRequest.Excerpt | wikischolar/services/aiService.ts:121 | `substring(0, n)` is the first `n` characters, or the whole text when shorter |
| AiRequest.PromptEmbedsExcerpt | wikischolar/services/aiService.ts:120-137 | every prompt is a fixed frame around the first 4500 characters of the context, 500 for a diagram and none for grading |
| AiRequest.PromptIgnoresRest | wikischolar/services/aiService.ts:120-137 | contexts agreeing on those first characters give the same prompt |
| AiRequest.Plan | wikischolar/services/aiService.ts:113-202 | a request is refused for a missing key exactly when its provider is not Puter and its trimmed key is empty; it goes to Puter's image generator exactly for a diagram resolved to Puter; it is refused as unsupported exactly for a text request resolved to Puter |
| AiRequest.PostCarriesKey | wikischolar/services/aiService.ts:164-199 | a request sent to the network has a non-blank key, in the Authorization header for chat endpoints and in the URL for Gemini; it goes to its provider's endpoint, `baseUrl` or empty for a custom one; a diagram uses the user-only body exactly on OpenRouter |
| AiRequest.DefaultsDrawWithPuter | wikischolar/services/aiService.ts:4-13 | with the default settings diagrams go keyless to Puter while a text request is refused until a key is set |
| AiRequest.KeylessDiagramFallsBack | wikischolar/services/aiService.ts:103-106 | without a key or separate image model a diagram is sent to Puter with the default image model |
| AiRequest.StatusError | wikischolar/services/aiService.ts:207-217 | no error exactly for a 2xx status; 429, 402 and 401 exactly give their own errors; any other status gives the generic error carrying it |
| AiRequest.StatusErrorIdentifies | wikischolar/services/aiService.ts:207-217 | different unsuccessful statuses give different errors |
| AiRequest.HttpErrorMessageIdentifies | wikischolar/services/aiService.ts:217 | the generic message names its status: different statuses give different messages |
| AiRequest.RemoveFenceTagsPieces | wikischolar/services/aiService.ts:255 | removing the `` ```json `` tags in any letter case cuts the reply, at the tags removed, into tag-free pieces and keeps exactly those pieces in order |
| AiRequest.RemoveControls | wikischolar/services/aiService.ts:255 | exactly the characters that are not control characters are kept, and none that is |
| AiRequest.RemoveControlsConcat | wikischolar/services/aiService.ts:255 | removing control characters works piecewise over concatenation |
| AiRequest.Cleanup | wikischolar/services/aiService.ts:255 | the cleaned reply is the reply with its `json` fence tags cut out in any letter case, then every remaining triple backquote, then every `[/s]` marker, with control characters removed and trimmed; a reply without backquotes or markers is only stripped of control characters and trimmed |
| AiRequest.CutOutIsReplaceAll | wikischolar/services/aiService.ts:255 | a text is a cut-out of a pattern exactly when it is the global left-to-right replacement of that pattern by nothing |
| AiRequest.SixBackquotesCutOut | wikischolar/services/aiService.ts:255 | six backquotes in a row are two fences, and cutting them out leaves nothing |
| AiRequest.CleanupFencedReply | wikischolar/services/aiService.ts:255 | a reply fenced as a `json` code block around its body cleans to its text without the opening and closing fence |
| AiRequest.CleanupKeepsCleanText | wikischolar/services/aiService.ts:255 | a reply that is already clean text passes the cleanup unchanged |
| AiRequest.FirstOpener | wikischolar/services/aiService.ts:257-263 | the position of the earliest `[` or `{`, none before it; none when the text has neither |
| AiRequest.ExtractJsonSpan | wikischolar/services/aiService.ts:256-271 | without an opener the text is unchanged; otherwise a slice starting at the first opener and ending at the last matching closer after it, or running to the end when there is none |
| AiRequest.ExtractJsonSpanIdempotent | wikischolar/services/aiService.ts:256-271 | extracting the span a second time changes nothing |
| AiRequest.ExtractsWrappedSpan | wikischolar/services/aiService.ts:256-271 | prose around a bracketed span without other openers before or matching closers after is cut off exactly |
| AiRequest.Interpret | wikischolar/services/aiService.ts:241-271 | an empty reply is reported as empty; simplify, custom, expand and real-world replies are prose, the reply trimmed with its non-space characters kept; a diagram reply is passed on; every other reply is exactly its cleaned JSON span |

## Left out

- `parseMarkdownToHtml` (utils/generator.ts:27-109) is HTML rendering, not study logic. The unused `isSignificant` (utils/generator.ts:5-19) is dead code.
- Network and browser I/O in `generateWithAI` are not modelled: `fetch`, `window.puter` (wikischolar/services/aiService.ts:140-158), walking the response JSON (220-239) and the final error wrapping (278-281). `AiRequest.Plan` stops where the request would be sent.
- Diagram replies are passed on unexamined. The URL and SVG matches of wikischolar/services/aiService.ts:244-250 and the image fields of 224-232 are left out.
- `tryParseJSON` (wikischolar/services/aiService.ts:62-76) delegates to `JSON.parse`, a foreign call. Only the text handed to it is modelled.
- The system prompt texts (wikischolar/services/aiService.ts:15-60) are a parameter of `AiRequest.Plan`. So is the page origin sent to OpenRouter. The `temperature: 0.5` field of the chat body is not represented.
- Timing is not modelled:
  - The 200 and 300 millisecond animation delays of the deck take effect at once.
  - React state batching is not modelled.
  - `setInterval` scheduling is reduced to one `Exam.Second` step per elapsed second.
- Exam.Earned: AI grades are integers, whereas `marksObtained` may be fractional. The results percentage (components/ExamMode.tsx:223) is floating point and is left out.
- `Math.random` is an oracle, and its distribution is not modelled. The comparator shuffle is modelled as a selection permutation driven by the oracle. Every permutation is reachable, and nothing is claimed about which one the engine's sort would produce.
- String lengths count characters (code points), whereas JavaScript's `length` and `substring` count UTF-16 code units. They agree on text without characters outside the Basic Multilingual Plane. On other text the following checks are modelled in code points:
- KeyPoints.Score: the raw length band of more than 50 and fewer than 200 characters (utils/generator.ts:118) is measured in code points.
- Timeline.Candidate: the bounds of more than 20 and fewer than 200 characters (utils/generator.ts:139) are measured in code points.
- FlashcardGen.TokenScore: the long-word bonus for more than seven characters (utils/generator.ts:168) is measured in code points.
- QuizGen.PickTarget: the more-than-five-characters test of a capitalised target (utils/generator.ts:208) is measured in code points. So is the more-than-four test of `QuizGen.IsProperNoun` (utils/generator.ts:196).
- FlashcardGen.CardSpec: the minimum answer length of three characters (utils/generator.ts:175) is measured in code points.
- AiRequest.Excerpt: `substring(0, 4500)` and `substring(0, 500)` (wikischolar/services/aiService.ts:121-137) keep that many code points, not UTF-16 code units.
- Character classes are ASCII:
  - `\s` is space, tab, line feed, carriage return, vertical tab and form feed.
  - `\w`, `\b` and `toLowerCase`/`toUpperCase` use ASCII letters and digits only.
  - The Unicode spaces and letters JavaScript also accepts are not modelled.
- Exam grading with AI, self-grade and answer recording, and the quit dialog are left out. The grade request itself is a network call. Their outcomes enter `Exam.Submit` as the recorded `Responses`.
- The empty `useEffect` of wikischolar/components/Quiz.tsx:31-36 has no effect and is not modelled.
- The rendering of all components is left out. So are persistence (localStorage) and Wikipedia fetching (wikischolar/services/wikiService.ts).
- Unmodelled record fields: `tag`, `explanation` and `modelAnswer` (wikischolar/types.ts:21-37) are carried by no modelled operation.
- QuizRound.Click: requires the current question to exist when unanswered. The source reads its correct answer. The component only renders options for an existing question (wikischolar/components/Quiz.tsx:152-154).
- Deck.Next and Deck.Prev: require at least one visible card. The component renders no buttons for an empty deck (wikischolar/components/Flashcards.tsx:27-33).
