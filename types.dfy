/** The record shapes shared by the quiz pages (types.js). */
module Types {
  /** One quiz question as the admin editor and the quiz page hold it. */
  datatype QuizQuestion = QuizQuestion(question: string, choices: seq<string>, answer: string)
}
