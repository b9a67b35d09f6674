/**
 * The multiple-choice question record (Assets/Scripts/Question.cs) and the
 * shape checks both QuestionManager passes apply to it.
 */
module Trivia {

  /** The number of answers Start expects every question to carry. */
  const ANSWERS_PER_QUESTION := 4

  /** A question: its prompt, its answer texts in button order, and the
      position of the correct answer among them. */
  datatype Question = Question(questionText: string, answers: seq<string>, correctAnswerIndex: int)

  /** The question can be laid out on `buttons` answer buttons: one answer
      per button and a correct index naming one of them.  This is the check
      DisplayCurrentQuestion makes against the number of answer buttons. */
  predicate FitsButtons(q: Question, buttons: nat)
  {
    |q.answers| == buttons && 0 <= q.correctAnswerIndex < buttons
  }

  /** The check Start makes of every question of the bank: exactly four
      answers and a correct index in [0, 4). */
  predicate WellFormed(q: Question)
  {
    FitsButtons(q, ANSWERS_PER_QUESTION)
  }
}
