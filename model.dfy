/**
 * The record types of the trivia game (package `redhatone2026.model`),
 * and the exceptions its services throw.
 */
module Model {
  import opened Wrappers

  /** A `java.util.UUID`: two 64-bit halves, compared by value. */
  datatype Uuid = Uuid(mostSignificantBits: bv64, leastSignificantBits: bv64)

  /** One answer option of a question; exactly one per question is meant to be correct. */
  datatype Answer = Answer(id: Uuid, text: string, isCorrect: bool)

  /** A trivia question with its ordered answer options (labels A, B, C, D by position). */
  datatype Question = Question(id: Uuid, questionText: string, optionalAnswers: seq<Answer>)

  /**
   * The record's compact constructor: a null answer list becomes the empty list,
   * any other list is copied, so the question keeps exactly the options it was given.
   */
  function NewQuestion(id: Uuid, questionText: string, optionalAnswers: Option<seq<Answer>>): (q: Question)
    ensures q.id == id && q.questionText == questionText
    ensures optionalAnswers.None? ==> q.optionalAnswers == []
    ensures optionalAnswers.Some? ==> q.optionalAnswers == optionalAnswers.value
  {
    Question(id, questionText, if optionalAnswers.None? then [] else optionalAnswers.value)
  }

  /**
   * The compact constructor is canonical: a question rebuilt from its own fields
   * is the same question (record equality after the copy), and a null answer
   * list and an empty one give the same question.
   */
  lemma NewQuestionCanonical(q: Question, id: Uuid, questionText: string)
    ensures NewQuestion(q.id, q.questionText, Some(q.optionalAnswers)) == q
    ensures NewQuestion(id, questionText, None) == NewQuestion(id, questionText, Some([]))
  {
  }

  /** The public view of a question: answer texts only, no correctness flags. */
  datatype TriviaQuestion = TriviaQuestion(
    id: Uuid,
    questionText: string,
    option1: string,
    option2: string,
    option3: string,
    option4: string,
    environment: string)

  /** An answer submission; every field may be null in the request body. */
  datatype AnswerSubmission = AnswerSubmission(
    username: Option<string>,
    questionId: Option<Uuid>,
    selectedAnswer: Option<string>)

  /** The reply to a submission: verdict, correct label, the full question and the next one (nullable). */
  datatype AnswerResponse = AnswerResponse(
    isCorrect: bool,
    correctAnswer: string,
    originalQuestion: Question,
    nextQuestion: Option<TriviaQuestion>)

  /** One row of the leaderboard. */
  datatype LeaderboardEntry = LeaderboardEntry(
    username: string,
    score: int,
    rank: int,
    questionsAnsweredCorrectly: int)

  /**
   * The exceptions the core throws. `InvalidAnswerIndex` and `NoCorrectAnswer` are the two
   * `IllegalStateException`s of `determineCorrectAnswer`, whose messages are built from the
   * index and the question id carried here.
   */
  datatype Exception =
    | IllegalArgument(message: string)
    | InvalidAnswerIndex(index: nat)
    | NoCorrectAnswer(questionId: Uuid)
    | IndexOutOfBounds(index: nat)

  /** A Java call that either returns a value or throws. */
  datatype Result<+T> = Ok(value: T) | Throws(exception: Exception)
}
