/** The verdict an assignment endpoint hands back to the lesson framework. */
module Assignments {

  datatype Option<+T> = None | Some(value: T)

  /** An AttackResult as the builder assembles it: whether the attempt
      solved the assignment, the feedback key (None when the builder was
      given none), the output text ("" when none was given) and the
      arguments for the feedback text. */
  datatype AttackResult = AttackResult(
    success: bool,
    feedback: Option<string>,
    output: string,
    feedbackArgs: seq<string>)

  /** A failed attempt, with an optional feedback key and the given output. */
  function Failed(feedback: Option<string>, output: string): AttackResult
  {
    AttackResult(false, feedback, output, [])
  }

  /** A solved attempt with the given feedback key and no output. */
  function Solved(key: string): AttackResult
  {
    AttackResult(true, Some(key), "", [])
  }
}
