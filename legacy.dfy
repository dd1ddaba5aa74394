/**
 * The earlier score ledger of package `com.redhat.demos.repository`: the same
 * two hash maps and the same `recordAnswer` as the current one, with only
 * `getScore` and `getAllScores` to read them.
 */
module LegacyRepository {
  import opened Model
  import opened Ledger

  class LeaderboardRepository {
    var userCorrectQuestions: map<string, set<Uuid>>
    var userScores: map<string, int>

    function State(): Ledger
      reads this
    {
      Ledger(userCorrectQuestions, userScores)
    }

    ghost predicate Valid()
      reads this
    {
      Consistent(State())
    }

    constructor ()
      ensures Valid() && State() == Empty
    {
      userCorrectQuestions := map[];
      userScores := map[];
    }

    /** Credits a correct answer at most once per question and user: the new state is `Record` of the old one. */
    method RecordAnswer(username: string, questionId: Uuid, isCorrect: bool)
      requires Valid()
      modifies this
      ensures Valid()
      ensures State() == Record(old(State()), username, questionId, isCorrect)
    {
      if !isCorrect {
        return;
      }
      ghost var before := State();
      // computeIfAbsent, then Set.add on the user's set
      var correctQuestions := if username in userCorrectQuestions then userCorrectQuestions[username] else {};
      var isNewCorrectAnswer := questionId !in correctQuestions;
      if isNewCorrectAnswer {
        userCorrectQuestions := userCorrectQuestions[username := correctQuestions + {questionId}];
        // merge(username, 1, Integer::sum)
        userScores := userScores[username := if username in userScores then userScores[username] + 1 else 1];
      }
      RecordKeepsConsistent(before, username, questionId, isCorrect);
    }

    /** `getOrDefault(username, 0)`: the number of questions credited to the user. */
    function GetScore(username: string): (r: int)
      reads this
      requires Valid()
      ensures r == |CorrectOf(State(), username)|
      ensures username !in userScores ==> r == 0
    {
      ScoreOf(State(), username)
    }

    /** A copy of the score map: the credited users, each with a positive score equal to the size of its set. */
    function GetAllScores(): (m: map<string, int>)
      reads this
      requires Valid()
      ensures m.Keys == userCorrectQuestions.Keys
      ensures forall u :: u in m ==> m[u] == |userCorrectQuestions[u]| > 0
    {
      userScores
    }
  }
}

/**
 * The earlier leaderboard service of package `com.redhat.demos.service`. Its
 * `getLeaderboard` asks its repository for `getQuestionsAnsweredCorrectly`,
 * which that repository does not declare; the count is therefore a parameter
 * here, and the result holds whatever that parameter gives.
 */
module LegacyService {
  import opened Model
  import opened Ledger
  import opened Ranking
  import opened LegacyRepository

  class LeaderboardService {
    const leaderboardRepository: LeaderboardRepository

    constructor (leaderboardRepository: LeaderboardRepository)
      ensures this.leaderboardRepository == leaderboardRepository
    {
      this.leaderboardRepository := leaderboardRepository;
    }

    method RecordAnswer(username: string, questionId: Uuid, isCorrect: bool)
      requires leaderboardRepository.Valid()
      modifies leaderboardRepository
      ensures leaderboardRepository.Valid()
      ensures leaderboardRepository.State() == Record(old(leaderboardRepository.State()), username, questionId, isCorrect)
    {
      leaderboardRepository.RecordAnswer(username, questionId, isCorrect);
    }

    /**
     * The ranked leaderboard of the current scores, built exactly as by the
     * current service; the count column is `questionsCorrect` of each user.
     */
    method GetLeaderboard(questionsCorrect: string -> int) returns (board: seq<LeaderboardEntry>)
      requires leaderboardRepository.Valid()
      ensures IsLeaderboard(board, leaderboardRepository.GetAllScores())
      ensures forall i :: 0 <= i < |board| ==>
        board[i].score == leaderboardRepository.GetScore(board[i].username)
        && board[i].questionsAnsweredCorrectly == questionsCorrect(board[i].username)
    {
      var allScores := leaderboardRepository.GetAllScores();
      board := BuildLeaderboard(allScores, questionsCorrect);
    }
  }
}
