/**
 * The score ledger as a value: for every user, the set of question ids answered
 * correctly and the user's score. Both `LeaderboardRepository` classes keep this
 * state in two hash maps and change it only through `recordAnswer`, whose effect
 * is the function `Record` below.
 */
module Ledger {
  import opened Model

  datatype Ledger = Ledger(correct: map<string, set<Uuid>>, scores: map<string, int>)

  /** The ledger of a freshly constructed repository. */
  const Empty: Ledger := Ledger(map[], map[])

  /**
   * The ledger invariant: both maps have the same users, every listed user has
   * at least one credited question, and a score is the number of credited questions.
   */
  ghost predicate Consistent(l: Ledger) {
    && l.scores.Keys == l.correct.Keys
    && (forall u :: u in l.correct ==> l.correct[u] != {})
    && (forall u :: u in l.scores ==> l.scores[u] == |l.correct[u]|)
  }

  /** The questions credited to `u` (`getOrDefault(u, Set.of())`). */
  function CorrectOf(l: Ledger, u: string): set<Uuid> {
    if u in l.correct then l.correct[u] else {}
  }

  /** The score of `u` (`getOrDefault(u, 0)`). */
  function ScoreOf(l: Ledger, u: string): int {
    if u in l.scores then l.scores[u] else 0
  }

  /**
   * The effect of `recordAnswer(u, q, isCorrect)`: a wrong answer changes nothing;
   * a correct one adds `q` to the user's set (creating it if absent) and, when `q`
   * was not there yet, adds one to the user's score (creating it at 1 if absent).
   */
  function Record(l: Ledger, u: string, q: Uuid, isCorrect: bool): (r: Ledger)
    ensures !isCorrect ==> r == l
    ensures isCorrect ==> CorrectOf(r, u) == CorrectOf(l, u) + {q}
    ensures ScoreOf(r, u) == if isCorrect && q !in CorrectOf(l, u) then ScoreOf(l, u) + 1 else ScoreOf(l, u)
    ensures forall v :: v != u ==> CorrectOf(r, v) == CorrectOf(l, v) && ScoreOf(r, v) == ScoreOf(l, v)
  {
    if !isCorrect || q in CorrectOf(l, u) then l
    else Ledger(l.correct[u := CorrectOf(l, u) + {q}], l.scores[u := ScoreOf(l, u) + 1])
  }

  /** `Record` keeps the ledger invariant. */
  lemma RecordKeepsConsistent(l: Ledger, u: string, q: Uuid, isCorrect: bool)
    requires Consistent(l)
    ensures Consistent(Record(l, u, q, isCorrect))
  {
  }

  /** Under the invariant, a user's score is the number of distinct questions credited to the user. */
  lemma ScoreIsCreditCount(l: Ledger, u: string)
    requires Consistent(l)
    ensures ScoreOf(l, u) == |CorrectOf(l, u)|
    ensures u !in l.scores ==> ScoreOf(l, u) == 0 && CorrectOf(l, u) == {}
  {
  }

  /** A repeated correct answer changes nothing: correct answers are credited at most once. */
  lemma RecordCorrectIdempotent(l: Ledger, u: string, q: Uuid)
    ensures Record(Record(l, u, q, true), u, q, true) == Record(l, u, q, true)
  {
  }

  /** One graded submission, as passed to `recordAnswer`. */
  datatype Attempt = Attempt(username: string, questionId: Uuid, isCorrect: bool)

  /** The ledger after recording `attempts` in order, starting from `l`. */
  function Replay(l: Ledger, attempts: seq<Attempt>): Ledger
    decreases |attempts|
  {
    if attempts == [] then l
    else Replay(Record(l, attempts[0].username, attempts[0].questionId, attempts[0].isCorrect), attempts[1..])
  }

  /** The distinct question ids that `attempts` answer correctly for user `u`. */
  ghost function CreditedIds(attempts: seq<Attempt>, u: string): set<Uuid> {
    set i | 0 <= i < |attempts| && attempts[i].username == u && attempts[i].isCorrect :: attempts[i].questionId
  }

  lemma {:induction false} CreditedIdsCons(attempts: seq<Attempt>, u: string)
    requires attempts != []
    ensures CreditedIds(attempts, u) ==
      (if attempts[0].username == u && attempts[0].isCorrect then {attempts[0].questionId} else {})
      + CreditedIds(attempts[1..], u)
  {
    var head := if attempts[0].username == u && attempts[0].isCorrect then {attempts[0].questionId} else {};
    forall x | x in CreditedIds(attempts, u)
      ensures x in head + CreditedIds(attempts[1..], u)
    {
      var i :| 0 <= i < |attempts| && attempts[i].username == u && attempts[i].isCorrect && attempts[i].questionId == x;
      if i > 0 {
        assert attempts[1..][i - 1] == attempts[i];
      }
    }
    forall x | x in CreditedIds(attempts[1..], u)
      ensures x in CreditedIds(attempts, u)
    {
      var i :| 0 <= i < |attempts[1..]| && attempts[1..][i].username == u && attempts[1..][i].isCorrect
        && attempts[1..][i].questionId == x;
      assert attempts[i + 1] == attempts[1..][i];
    }
  }

  /** Replaying any history keeps the ledger invariant. */
  lemma {:induction false} ReplayConsistent(l: Ledger, attempts: seq<Attempt>)
    requires Consistent(l)
    ensures Consistent(Replay(l, attempts))
    decreases |attempts|
  {
    if attempts != [] {
      var a := attempts[0];
      RecordKeepsConsistent(l, a.username, a.questionId, a.isCorrect);
      ReplayConsistent(Record(l, a.username, a.questionId, a.isCorrect), attempts[1..]);
    }
  }

  /**
   * Replaying any history credits each user with exactly the distinct questions
   * that user answered correctly in the history, on top of the starting credits.
   */
  lemma {:induction false} ReplayCredits(l: Ledger, attempts: seq<Attempt>, u: string)
    ensures CorrectOf(Replay(l, attempts), u) == CorrectOf(l, u) + CreditedIds(attempts, u)
    decreases |attempts|
  {
    if attempts != [] {
      var a := attempts[0];
      var l' := Record(l, a.username, a.questionId, a.isCorrect);
      assert Replay(l, attempts) == Replay(l', attempts[1..]);
      ReplayCredits(l', attempts[1..], u);
      CreditedIdsCons(attempts, u);
    } else {
      assert CreditedIds(attempts, u) == {};
    }
  }

  /**
   * The central promise of the ledger: starting empty, after any history of
   * submissions a user's score is the number of distinct questions the user
   * answered correctly, however often each was answered.
   */
  lemma ScoreAfterHistory(attempts: seq<Attempt>, u: string)
    ensures ScoreOf(Replay(Empty, attempts), u) == |CreditedIds(attempts, u)|
  {
    ReplayConsistent(Empty, attempts);
    ReplayCredits(Empty, attempts, u);
    ScoreIsCreditCount(Replay(Empty, attempts), u);
  }
}
