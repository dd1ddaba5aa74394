/**
 * The service layer of package `redhatone2026.service`: question lookup and the
 * public question view, the leaderboard, and answer grading.
 */
module Service {
  import opened Wrappers
  import opened Model
  import opened Ledger
  import opened Repository
  import opened Ranking

  /**
   * The public view of a question: id, text, the texts of the first four
   * options and the environment message. `answers.get(k)` on a shorter list
   * throws at the first missing position, which is the list's length.
   */
  function ToTriviaQuestion(q: Question, environment: string): (r: Result<TriviaQuestion>)
    ensures r.Throws? <==> |q.optionalAnswers| < 4
    ensures r.Throws? ==> r.exception == IndexOutOfBounds(|q.optionalAnswers|)
    ensures r.Ok? ==> r.value.id == q.id && r.value.questionText == q.questionText && r.value.environment == environment
    ensures r.Ok? ==> [r.value.option1, r.value.option2, r.value.option3, r.value.option4]
                      == seq(4, k requires 0 <= k < 4 => q.optionalAnswers[k].text)
  {
    var answers := q.optionalAnswers;
    if |answers| < 4 then Throws(IndexOutOfBounds(|answers|))
    else Ok(TriviaQuestion(q.id, q.questionText, answers[0].text, answers[1].text, answers[2].text,
                           answers[3].text, environment))
  }

  /** `q` with the correctness flags of its options replaced by `flags`. */
  function WithFlags(q: Question, flags: seq<bool>): (r: Question)
    requires |flags| == |q.optionalAnswers|
    ensures r.id == q.id && r.questionText == q.questionText && |r.optionalAnswers| == |q.optionalAnswers|
    ensures forall k :: 0 <= k < |flags| ==>
      r.optionalAnswers[k] == q.optionalAnswers[k].(isCorrect := flags[k])
  {
    q.(optionalAnswers := seq(|flags|, k requires 0 <= k < |flags| => q.optionalAnswers[k].(isCorrect := flags[k])))
  }

  /**
   * The public view exposes no correctness information: re-flagging the options
   * of a question in any way leaves its view unchanged.
   */
  lemma TriviaHidesCorrectness(q: Question, flags: seq<bool>, environment: string)
    requires |flags| == |q.optionalAnswers|
    ensures ToTriviaQuestion(WithFlags(q, flags), environment) == ToTriviaQuestion(q, environment)
  {
    var q' := WithFlags(q, flags);
    if |q.optionalAnswers| >= 4 {
      forall k | 0 <= k < 4 ensures q'.optionalAnswers[k].text == q.optionalAnswers[k].text {
        assert q'.optionalAnswers[k] == q.optionalAnswers[k].(isCorrect := flags[k]);
      }
    }
  }

  /** A `Result<TriviaQuestion>` as the `Optional` that `getRandomTriviaQuestion` returns. */
  function Present(t: Result<TriviaQuestion>): (r: Result<Option<TriviaQuestion>>)
    ensures r.Throws? <==> t.Throws?
    ensures t.Throws? ==> r.exception == t.exception
    ensures t.Ok? ==> r == Ok(Some(t.value))
  {
    match t
    case Ok(v) => Ok(Some(v))
    case Throws(e) => Throws(e)
  }

  /**
   * What `getRandomTriviaQuestion` may return for the store `questionMap`:
   * empty exactly when the store is empty, otherwise the view of some stored
   * question (which throws when that question has fewer than four options).
   */
  ghost predicate RandomTriviaOutcome(r: Result<Option<TriviaQuestion>>, questionMap: map<Uuid, Question>, environment: string) {
    && (r == Ok(None) <==> |questionMap| == 0)
    && (r != Ok(None) ==> exists id :: id in questionMap && r == Present(ToTriviaQuestion(questionMap[id], environment)))
  }

  /** Question business logic over the question store. */
  class QuestionService {
    const questionRepository: QuestionRepository

    constructor (questionRepository: QuestionRepository)
      ensures this.questionRepository == questionRepository
    {
      this.questionRepository := questionRepository;
    }

    /** All stored questions, each once. */
    method GetAllQuestions() returns (all: seq<Question>)
      requires questionRepository.Valid()
      ensures |all| == |questionRepository.questionMap|
      ensures forall i :: 0 <= i < |all| ==>
        all[i].id in questionRepository.questionMap && questionRepository.questionMap[all[i].id] == all[i]
      ensures forall id :: id in questionRepository.questionMap ==> exists i :: 0 <= i < |all| && all[i].id == id
    {
      all := questionRepository.FindAll();
    }

    /** A null id is rejected; otherwise the stored question with that id, if any. */
    function GetQuestionById(id: Option<Uuid>): (r: Result<Option<Question>>)
      reads questionRepository
      requires questionRepository.Valid()
      ensures id.None? <==> r.Throws?
      ensures id.None? ==> r.exception == IllegalArgument("Question ID cannot be null")
      ensures id.Some? ==> (r.value.Some? <==> id.value in questionRepository.questionMap)
      ensures id.Some? && r.value.Some? ==>
        r.value.value == questionRepository.questionMap[id.value] && r.value.value.id == id.value
    {
      if id.None? then Throws(IllegalArgument("Question ID cannot be null"))
      else Ok(questionRepository.FindById(id.value))
    }

    /** Some stored question, or none when the store is empty. */
    method GetRandomQuestion() returns (r: Option<Question>)
      requires questionRepository.Valid()
      ensures r.None? <==> |questionRepository.questionMap| == 0
      ensures r.Some? ==> r.value.id in questionRepository.questionMap && questionRepository.questionMap[r.value.id] == r.value
    {
      r := questionRepository.FindRandom();
    }

    /**
     * The public view of a random stored question with the environment message
     * (supplied by the caller), or empty when the store is empty.
     */
    method GetRandomTriviaQuestion(environment: string) returns (r: Result<Option<TriviaQuestion>>)
      requires questionRepository.Valid()
      ensures RandomTriviaOutcome(r, questionRepository.questionMap, environment)
    {
      var question := questionRepository.FindRandom();
      if question.None? {
        return Ok(None);
      }
      r := Present(ToTriviaQuestion(question.value, environment));
    }
  }

  /** Leaderboard business logic over the score ledger. */
  class LeaderboardService {
    const leaderboardRepository: LeaderboardRepository

    constructor (leaderboardRepository: LeaderboardRepository)
      ensures this.leaderboardRepository == leaderboardRepository
    {
      this.leaderboardRepository := leaderboardRepository;
    }

    /** Forwards to the repository: the ledger changes exactly as `Record` says. */
    method RecordAnswer(username: string, questionId: Uuid, isCorrect: bool)
      requires leaderboardRepository.Valid()
      modifies leaderboardRepository
      ensures leaderboardRepository.Valid()
      ensures leaderboardRepository.State() == Record(old(leaderboardRepository.State()), username, questionId, isCorrect)
    {
      leaderboardRepository.RecordAnswer(username, questionId, isCorrect);
    }

    /**
     * The ranked leaderboard of the current scores; each entry's count of
     * questions answered correctly is read back from the repository and equals
     * its score.
     */
    method GetLeaderboard() returns (board: seq<LeaderboardEntry>)
      requires leaderboardRepository.Valid()
      ensures IsLeaderboard(board, leaderboardRepository.GetAllScores())
      ensures forall i :: 0 <= i < |board| ==>
        board[i].questionsAnsweredCorrectly == leaderboardRepository.GetQuestionsAnsweredCorrectly(board[i].username)
      ensures forall i :: 0 <= i < |board| ==> board[i].questionsAnsweredCorrectly == board[i].score
    {
      var allScores := leaderboardRepository.GetAllScores();
      var ledger := leaderboardRepository.State();
      board := BuildLeaderboard(allScores, u => |CorrectOf(ledger, u)|);
      forall i | 0 <= i < |board|
        ensures board[i].questionsAnsweredCorrectly == board[i].score
      {
        ScoreIsCreditCount(ledger, board[i].username);
      }
    }
  }

  /** The answer labels; the answer at position `i` is labelled `Labels[i]`. */
  const Labels: seq<string> := ["A", "B", "C", "D"]

  /** The selections a submission may carry. */
  const ValidSelections: set<string> := {"A", "B", "C", "D"}

  /**
   * The input checks of `submitAnswer`, in order: the first failing check
   * gives the `IllegalArgumentException`, none failing gives no error.
   */
  function CheckSubmission(s: AnswerSubmission): (r: Option<Exception>)
    ensures r.None? <==> s.username.Some? && s.username.value != [] && s.questionId.Some?
                         && s.selectedAnswer.Some? && s.selectedAnswer.value in ValidSelections
    ensures (s.username.None? || s.username.value == []) ==> r == Some(IllegalArgument("Invalid username"))
    ensures s.username.Some? && s.username.value != [] && s.questionId.None? ==>
      r == Some(IllegalArgument("Invalid questionId"))
    ensures s.username.Some? && s.username.value != [] && s.questionId.Some?
            && (s.selectedAnswer.None? || s.selectedAnswer.value !in ValidSelections) ==>
      r == Some(IllegalArgument("Invalid answer selection"))
  {
    if s.username.None? || s.username.value == [] then Some(IllegalArgument("Invalid username"))
    else if s.questionId.None? then Some(IllegalArgument("Invalid questionId"))
    else if s.selectedAnswer.None? || s.selectedAnswer.value !in ValidSelections then
      Some(IllegalArgument("Invalid answer selection"))
    else None
  }

  /** The position of the first option flagged correct, if any. */
  function FirstCorrect(answers: seq<Answer>): (r: Option<nat>)
    ensures r.Some? ==> r.value < |answers| && answers[r.value].isCorrect
    ensures r.Some? ==> forall j :: 0 <= j < r.value ==> !answers[j].isCorrect
    ensures r.None? ==> forall j :: 0 <= j < |answers| ==> !answers[j].isCorrect
    decreases |answers|
  {
    if answers == [] then None
    else if answers[0].isCorrect then Some(0)
    else
      match FirstCorrect(answers[1..])
      case None => None
      case Some(i) => Some(i + 1)
  }

  /**
   * The label of the first option flagged correct; an `IllegalStateException`
   * when it lies beyond the fourth option or when no option is flagged.
   */
  function CorrectAnswerOf(q: Question): (r: Result<string>)
    ensures r.Ok? <==> exists i :: 0 <= i < |q.optionalAnswers| && i < 4 && q.optionalAnswers[i].isCorrect
    ensures r.Ok? ==> r.value in ValidSelections
    ensures forall i :: 0 <= i < |q.optionalAnswers| && q.optionalAnswers[i].isCorrect
                        && (forall j :: 0 <= j < i ==> !q.optionalAnswers[j].isCorrect) ==>
      r == if i < 4 then Ok(Labels[i]) else Throws(InvalidAnswerIndex(i))
    ensures r == Throws(NoCorrectAnswer(q.id)) <==> forall j :: 0 <= j < |q.optionalAnswers| ==> !q.optionalAnswers[j].isCorrect
  {
    match FirstCorrect(q.optionalAnswers)
    case None => Throws(NoCorrectAnswer(q.id))
    case Some(i) => if i < 4 then Ok(Labels[i]) else Throws(InvalidAnswerIndex(i))
  }

  /**
   * A question as the questions file intends it: four options, exactly one
   * flagged correct.
   */
  ghost predicate WellFormed(q: Question) {
    && |q.optionalAnswers| == 4
    && (exists i :: 0 <= i < 4 && q.optionalAnswers[i].isCorrect)
    && (forall i, j :: 0 <= i < 4 && 0 <= j < 4 && q.optionalAnswers[i].isCorrect && q.optionalAnswers[j].isCorrect ==> i == j)
  }

  /**
   * For a well-formed question, grading never throws and a selection is graded
   * correct exactly when the option it labels is the one flagged correct.
   */
  lemma GradingMatchesFlags(q: Question)
    requires WellFormed(q)
    ensures CorrectAnswerOf(q).Ok?
    ensures forall i :: 0 <= i < 4 ==> (Labels[i] == CorrectAnswerOf(q).value <==> q.optionalAnswers[i].isCorrect)
  {
    var c :| 0 <= c < 4 && q.optionalAnswers[c].isCorrect;
    assert forall j :: 0 <= j < c ==> !q.optionalAnswers[j].isCorrect;
    assert CorrectAnswerOf(q) == Ok(Labels[c]);
  }

  /**
   * The response to a graded submission once the next question is drawn: a
   * failure to build the next question propagates, an empty draw gives a null
   * next question.
   */
  function Respond(isCorrect: bool, correctAnswer: string, question: Question, next: Result<Option<TriviaQuestion>>): (r: Result<Option<AnswerResponse>>)
    ensures next.Throws? ==> r == Throws(next.exception)
    ensures next.Ok? ==> r == Ok(Some(AnswerResponse(isCorrect, correctAnswer, question, next.value)))
  {
    match next
    case Throws(e) => Throws(e)
    case Ok(n) => Ok(Some(AnswerResponse(isCorrect, correctAnswer, question, n)))
  }

  /** Answer grading: validates a submission, grades it, records it, and draws the next question. */
  class AnswerService {
    const questionService: QuestionService
    const leaderboardService: LeaderboardService

    constructor (questionService: QuestionService, leaderboardService: LeaderboardService)
      ensures this.questionService == questionService && this.leaderboardService == leaderboardService
    {
      this.questionService := questionService;
      this.leaderboardService := leaderboardService;
    }

    /** The search loop of `determineCorrectAnswer`: its result is `CorrectAnswerOf(q)`. */
    method DetermineCorrectAnswer(q: Question) returns (r: Result<string>)
      ensures r == CorrectAnswerOf(q)
    {
      var answers := q.optionalAnswers;
      for i := 0 to |answers|
        invariant forall j :: 0 <= j < i ==> !answers[j].isCorrect
      {
        if answers[i].isCorrect {
          if i < 4 {
            return Ok(Labels[i]);
          }
          return Throws(InvalidAnswerIndex(i));
        }
      }
      return Throws(NoCorrectAnswer(q.id));
    }

    /**
     * `submitAnswer`: invalid input throws before anything changes; an unknown
     * question gives an empty result; a question that cannot be graded throws
     * before anything changes; otherwise the attempt is recorded and the
     * response carries the verdict, the correct label, the question and a
     * random next question (whose view may throw after the recording).
     */
    method SubmitAnswer(submission: AnswerSubmission, environment: string) returns (r: Result<Option<AnswerResponse>>)
      requires questionService.questionRepository.Valid()
      requires leaderboardService.leaderboardRepository.Valid()
      modifies leaderboardService.leaderboardRepository
      ensures leaderboardService.leaderboardRepository.Valid()
      ensures CheckSubmission(submission).Some? ==>
        r == Throws(CheckSubmission(submission).value)
        && leaderboardService.leaderboardRepository.State() == old(leaderboardService.leaderboardRepository.State())
      ensures CheckSubmission(submission).None? && submission.questionId.value !in questionService.questionRepository.questionMap ==>
        r == Ok(None)
        && leaderboardService.leaderboardRepository.State() == old(leaderboardService.leaderboardRepository.State())
      ensures CheckSubmission(submission).None? && submission.questionId.value in questionService.questionRepository.questionMap ==>
        var question := questionService.questionRepository.questionMap[submission.questionId.value];
        var graded := CorrectAnswerOf(question);
        && (graded.Throws? ==>
              r == Throws(graded.exception)
              && leaderboardService.leaderboardRepository.State() == old(leaderboardService.leaderboardRepository.State()))
        && (graded.Ok? ==>
              var isCorrect := submission.selectedAnswer.value == graded.value;
              && leaderboardService.leaderboardRepository.State()
                 == Record(old(leaderboardService.leaderboardRepository.State()), submission.username.value, submission.questionId.value, isCorrect)
              && exists next :: RandomTriviaOutcome(next, questionService.questionRepository.questionMap, environment)
                                && r == Respond(isCorrect, graded.value, question, next))
    {
      var check := CheckSubmission(submission);
      if check.Some? {
        return Throws(check.value);
      }
      var found := questionService.GetQuestionById(submission.questionId).value;
      if found.None? {
        return Ok(None);
      }
      var question := found.value;
      var correctAnswer := DetermineCorrectAnswer(question);
      if correctAnswer.Throws? {
        return Throws(correctAnswer.exception);
      }
      var isCorrect := submission.selectedAnswer.value == correctAnswer.value;
      leaderboardService.RecordAnswer(submission.username.value, submission.questionId.value, isCorrect);
      var next := questionService.GetRandomTriviaQuestion(environment);
      r := Respond(isCorrect, correctAnswer.value, question, next);
    }
  }
}
