/** The records the study pipeline produces and the interface components
    consume (wikischolar/types.ts). Optional TypeScript fields are Options. */
module StudyTypes {
  import opened Wrappers

  datatype Flashcard = Flashcard(id: string, front: string, back: string)

  datatype TimelineEvent = TimelineEvent(year: string, description: string)

  datatype QuestionKind = Mcq | ShortAnswer

  /** A question; `options` and `correctAnswer` belong to multiple-choice
      questions, `marks` may be absent. */
  datatype QuizQuestion = QuizQuestion(
    id: string,
    kind: Option<QuestionKind>,
    question: string,
    options: Option<seq<string>>,
    correctAnswer: Option<string>,
    marks: Option<int>)

  /** The placeholder that masks the answer in a cloze sentence. */
  const Mask: string := "________"
}
