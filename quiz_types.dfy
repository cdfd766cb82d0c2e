/** The question model shared by the quiz components (app/components/Quiz/types.ts). */
module QuizTypes {

  /** A nullable value: `number | null` in the source. */
  datatype Option<T> = None | Some(value: T)

  /** What a JavaScript call does: return a value or throw (a TypeError, here). */
  datatype Outcome<T> = Returns(value: T) | Throws

  /** One answer choice of a question. */
  datatype QuestionOption = QuestionOption(text: string, isCorrect: bool, explanation: string)

  /** One quiz question; `question` is the prompt text. */
  datatype Question = Question(id: string, question: string, hint: string, options: seq<QuestionOption>)
}
