/**
 * The in-memory repositories of package `redhatone2026.repository`:
 * the score ledger and the question store.
 */
module Repository {
  import opened Wrappers
  import opened Model
  import opened Ledger

  /** Score ledger: two hash maps updated in place by `recordAnswer`. */
  class LeaderboardRepository {
    var userCorrectQuestions: map<string, set<Uuid>>
    var userScores: map<string, int>

    /** The two maps, as one ledger value. */
    function State(): Ledger
      reads this
    {
      Ledger(userCorrectQuestions, userScores)
    }

    ghost predicate Valid()
      reads this
    {
      Consistent(State())
    }

    constructor ()
      ensures Valid() && State() == Empty
    {
      userCorrectQuestions := map[];
      userScores := map[];
    }

    /**
     * Credits a correct answer at most once per question and user: the new
     * state is exactly `Record` of the old one.
     */
    method RecordAnswer(username: string, questionId: Uuid, isCorrect: bool)
      requires Valid()
      modifies this
      ensures Valid()
      ensures State() == Record(old(State()), username, questionId, isCorrect)
    {
      if !isCorrect {
        return;
      }
      ghost var before := State();
      // computeIfAbsent(username, k -> new HashSet<>()): the user's set, or a new empty one
      var correctQuestions := if username in userCorrectQuestions then userCorrectQuestions[username] else {};
      // Set.add reports whether the id was new; the set is the one held by the map
      var isNewCorrectAnswer := questionId !in correctQuestions;
      if isNewCorrectAnswer {
        userCorrectQuestions := userCorrectQuestions[username := correctQuestions + {questionId}];
        // merge(username, 1, Integer::sum)
        userScores := userScores[username := if username in userScores then userScores[username] + 1 else 1];
      }
      RecordKeepsConsistent(before, username, questionId, isCorrect);
    }

    /** The score of a user; 0 for a user never credited. */
    function GetScore(username: string): (r: int)
      reads this
      requires Valid()
      ensures r == |CorrectOf(State(), username)|
      ensures username !in userScores ==> r == 0
    {
      ScoreOf(State(), username)
    }

    /** A copy of the score map: the credited users, each with the number of questions credited. */
    function GetAllScores(): (m: map<string, int>)
      reads this
      requires Valid()
      ensures m.Keys == userCorrectQuestions.Keys
      ensures forall u :: u in m ==> m[u] == |userCorrectQuestions[u]| > 0
    {
      userScores
    }

    /** The number of distinct questions credited to a user; it always equals the score. */
    function GetQuestionsAnsweredCorrectly(username: string): (r: int)
      reads this
      requires Valid()
      ensures r == GetScore(username)
      ensures username !in userCorrectQuestions ==> r == 0
    {
      |CorrectOf(State(), username)|
    }
  }

  /** The ids of the questions in `qs`. */
  ghost function IdsOf(qs: seq<Question>): set<Uuid> {
    set i | 0 <= i < |qs| :: qs[i].id
  }

  lemma IdsOfAppend(qs: seq<Question>, q: Question)
    ensures IdsOf(qs + [q]) == IdsOf(qs) + {q.id}
  {
    var t := qs + [q];
    assert t[|qs|] == q;
    forall id | id in IdsOf(qs) ensures id in IdsOf(t) {
      var i :| 0 <= i < |qs| && qs[i].id == id;
      assert t[i] == qs[i];
    }
    forall id | id in IdsOf(t) ensures id in IdsOf(qs) + {q.id} {
      var i :| 0 <= i < |t| && t[i].id == id;
      if i < |qs| { assert t[i] == qs[i]; }
    }
  }

  /** No two questions of `qs` share an id. */
  ghost predicate DistinctIds(qs: seq<Question>) {
    forall i, j :: 0 <= i < j < |qs| ==> qs[i].id != qs[j].id
  }

  /**
   * `m` is what inserting the first `n` questions of `qs` in order leaves:
   * exactly their ids as keys, and for each id the last of them with that id.
   */
  ghost predicate LastWriteWins(m: map<Uuid, Question>, qs: seq<Question>, n: nat)
    requires n <= |qs|
  {
    && m.Keys == IdsOf(qs[..n])
    && (forall id :: id in m ==> m[id].id == id)
    && (forall i :: 0 <= i < n && (forall j :: i < j < n ==> qs[j].id != qs[i].id) ==> m[qs[i].id] == qs[i])
  }

  /** A list of `n` questions carries at most `n` ids, exactly `n` when they are distinct. */
  lemma {:induction false} IdsCount(qs: seq<Question>)
    ensures |IdsOf(qs)| <= |qs|
    ensures DistinctIds(qs) ==> |IdsOf(qs)| == |qs|
  {
    if qs != [] {
      var init := qs[..|qs| - 1];
      IdsCount(init);
      assert qs == init + [qs[|qs| - 1]];
      IdsOfAppend(init, qs[|qs| - 1]);
      if DistinctIds(qs) {
        assert DistinctIds(init);
        assert qs[|qs| - 1].id !in IdsOf(init);
      }
    } else {
      assert IdsOf(qs) == {};
    }
  }

  /** Inserting the next question of the list keeps `LastWriteWins`. */
  lemma LoadStep(m: map<Uuid, Question>, qs: seq<Question>, n: nat)
    requires n < |qs| && LastWriteWins(m, qs, n)
    ensures LastWriteWins(m[qs[n].id := qs[n]], qs, n + 1)
  {
    assert qs[..n + 1] == qs[..n] + [qs[n]];
    IdsOfAppend(qs[..n], qs[n]);
  }

  /** A loaded store holds at most one question per list element, exactly one when ids are distinct. */
  lemma LoadedSize(m: map<Uuid, Question>, qs: seq<Question>)
    requires LastWriteWins(m, qs, |qs|)
    ensures |m| <= |qs|
    ensures DistinctIds(qs) ==> |m| == |qs|
  {
    IdsCount(qs);
    assert qs[..|qs|] == qs;
    assert |m| == |m.Keys|;
  }

  /** The values of an id-keyed question map, each once, in an unspecified order. */
  method ValuesOf(m: map<Uuid, Question>) returns (all: seq<Question>)
    requires forall id :: id in m ==> m[id].id == id
    ensures |all| == |m|
    ensures forall i :: 0 <= i < |all| ==> all[i].id in m && m[all[i].id] == all[i]
    ensures forall id :: id in m ==> exists i :: 0 <= i < |all| && all[i].id == id
    ensures DistinctIds(all)
  {
    var remaining := m.Keys;
    all := [];
    while remaining != {}
      invariant remaining <= m.Keys
      invariant IdsOf(all) == m.Keys - remaining
      invariant |all| + |remaining| == |m|
      invariant forall i :: 0 <= i < |all| ==> all[i].id in m && m[all[i].id] == all[i]
      invariant DistinctIds(all)
      decreases remaining
    {
      var id :| id in remaining;
      ValuesStep(m, all, remaining, id);
      all := all + [m[id]];
      remaining := remaining - {id};
    }
    forall id | id in m
      ensures exists i :: 0 <= i < |all| && all[i].id == id
    {
      assert id in IdsOf(all);
    }
  }

  /** One step of the enumeration in `ValuesOf` keeps its loop invariant. */
  lemma ValuesStep(m: map<Uuid, Question>, all: seq<Question>, remaining: set<Uuid>, id: Uuid)
    requires forall k :: k in m ==> m[k].id == k
    requires remaining <= m.Keys && id in remaining
    requires IdsOf(all) == m.Keys - remaining
    requires forall i :: 0 <= i < |all| ==> all[i].id in m && m[all[i].id] == all[i]
    requires DistinctIds(all)
    ensures IdsOf(all + [m[id]]) == m.Keys - (remaining - {id})
    ensures DistinctIds(all + [m[id]])
  {
    IdsOfAppend(all, m[id]);
    var next := all + [m[id]];
    forall i, j | 0 <= i < j < |next| ensures next[i].id != next[j].id {
      if j == |all| {
        assert next[i] == all[i] && all[i].id in IdsOf(all);
      } else {
        assert next[i] == all[i] && next[j] == all[j];
      }
    }
  }

  /** Question store: an id-keyed hash map filled once at start-up. */
  class QuestionRepository {
    var questionMap: map<Uuid, Question>

    /** Every question is stored under its own id. */
    ghost predicate Valid()
      reads this
    {
      forall id :: id in questionMap ==> questionMap[id].id == id
    }

    /**
     * Construction followed by the insertion loop of `init`, over the list parsed
     * from the questions file: a later question replaces an earlier one with the same id.
     */
    constructor (questions: seq<Question>)
      ensures Valid()
      ensures LastWriteWins(questionMap, questions, |questions|)
    {
      questionMap := map[];
      new;
      for i := 0 to |questions|
        invariant LastWriteWins(questionMap, questions, i)
      {
        LoadStep(questionMap, questions, i);
        questionMap := questionMap[questions[i].id := questions[i]];
      }
    }

    /** A new list of the stored questions, each once, in the map's (unspecified) order. */
    method FindAll() returns (all: seq<Question>)
      requires Valid()
      ensures |all| == |questionMap|
      ensures forall i :: 0 <= i < |all| ==> all[i].id in questionMap && questionMap[all[i].id] == all[i]
      ensures forall id :: id in questionMap ==> exists i :: 0 <= i < |all| && all[i].id == id
      ensures DistinctIds(all)
    {
      all := ValuesOf(questionMap);
    }

    /** The question stored under `id`, if any. */
    function FindById(id: Uuid): (r: Option<Question>)
      reads this
      requires Valid()
      ensures r.Some? <==> id in questionMap
      ensures r.Some? ==> r.value == questionMap[id] && r.value.id == id
    {
      if id in questionMap then Some(questionMap[id]) else None
    }

    /** A stored question picked by a random index, or none when the store is empty. */
    method FindRandom() returns (r: Option<Question>)
      requires Valid()
      ensures r.None? <==> |questionMap| == 0
      ensures r.Some? ==> r.value.id in questionMap && questionMap[r.value.id] == r.value
    {
      if |questionMap| == 0 {
        return None;
      }
      var questions := FindAll();
      var randomIndex :| 0 <= randomIndex < |questions|;
      return Some(questions[randomIndex]);
    }
  }
}
