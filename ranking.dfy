/**
 * Building the leaderboard from a snapshot of the score map: one entry per user,
 * sorted by score descending and username ascending, ranked 1..N by position.
 * Shared by both `LeaderboardService` classes, whose `getLeaderboard` bodies are the same.
 */
module Ranking {
  import opened Model

  /** `a.compareTo(b) < 0` on strings: lexicographic by character, a proper prefix first. */
  function StringLess(a: string, b: string): (r: bool)
    ensures r ==> a != b
    ensures |a| < |b| && a == b[..|a|] ==> r
    decreases |a|
  {
    if a == [] then b != []
    else b != [] && (a[0] < b[0] || (a[0] == b[0] && StringLess(a[1..], b[1..])))
  }

  lemma {:induction false} StringLessIrreflexive(a: string)
    ensures !StringLess(a, a)
    decreases |a|
  {
    if a != [] {
      StringLessIrreflexive(a[1..]);
    }
  }

  lemma {:induction false} StringLessTransitive(a: string, b: string, c: string)
    requires StringLess(a, b) && StringLess(b, c)
    ensures StringLess(a, c)
    decreases |a|
  {
    if a != [] && a[0] == b[0] == c[0] {
      StringLessTransitive(a[1..], b[1..], c[1..]);
    }
  }

  /** Two different strings are always ordered one way or the other. */
  lemma {:induction false} StringLessTotal(a: string, b: string)
    ensures a == b || StringLess(a, b) || StringLess(b, a)
    decreases |a|
  {
    if a != [] && b != [] && a[0] == b[0] {
      StringLessTotal(a[1..], b[1..]);
      if a[1..] == b[1..] {
        assert a == [a[0]] + a[1..] && b == [b[0]] + b[1..];
      }
    }
  }

  /**
   * The comparator `comparing(score).reversed().thenComparing(username)`:
   * `a` sorts before `b` when its score is higher, or equal with a smaller username.
   */
  function Before(a: LeaderboardEntry, b: LeaderboardEntry): (r: bool)
    ensures r ==> a.score >= b.score
    ensures r && a.score == b.score ==> a.username != b.username
  {
    a.score > b.score || (a.score == b.score && StringLess(a.username, b.username))
  }

  lemma BeforeIrreflexive(a: LeaderboardEntry)
    ensures !Before(a, a)
  {
    StringLessIrreflexive(a.username);
  }

  lemma BeforeTransitive(a: LeaderboardEntry, b: LeaderboardEntry, c: LeaderboardEntry)
    requires Before(a, b) && Before(b, c)
    ensures Before(a, c)
  {
    if a.score == b.score == c.score {
      StringLessTransitive(a.username, b.username, c.username);
    }
  }

  /** Entries of two different users are always ordered one way or the other. */
  lemma BeforeTotal(a: LeaderboardEntry, b: LeaderboardEntry)
    requires a.username != b.username
    ensures Before(a, b) || Before(b, a)
  {
    StringLessTotal(a.username, b.username);
  }

  /** No entry sorts strictly before an earlier one. */
  ghost predicate Sorted(s: seq<LeaderboardEntry>) {
    forall i, j :: 0 <= i < j < |s| ==> !Before(s[j], s[i])
  }

  /** No two entries share a username. */
  ghost predicate DistinctNames(s: seq<LeaderboardEntry>) {
    forall i, j :: 0 <= i < j < |s| ==> s[i].username != s[j].username
  }

  /** Inserts `e` in front of the first entry it sorts before (at the end if none). */
  function Insert(e: LeaderboardEntry, s: seq<LeaderboardEntry>): (r: seq<LeaderboardEntry>)
    ensures multiset(r) == multiset(s) + multiset{e}
  {
    if s == [] then [e]
    else if Before(e, s[0]) then [e] + s
    else
      assert s == [s[0]] + s[1..];
      [s[0]] + Insert(e, s[1..])
  }

  lemma {:induction false} InsertSorted(e: LeaderboardEntry, s: seq<LeaderboardEntry>)
    requires Sorted(s)
    ensures Sorted(Insert(e, s))
  {
    if s == [] {
    } else if Before(e, s[0]) {
      var r := Insert(e, s);
      forall i, j | 0 <= i < j < |r| ensures !Before(r[j], r[i]) {
        if i == 0 && Before(r[j], e) {
          BeforeTransitive(r[j], e, s[0]);
        }
      }
    } else {
      var rest := Insert(e, s[1..]);
      InsertSorted(e, s[1..]);
      var r := [s[0]] + rest;
      forall i, j | 0 <= i < j < |r| ensures !Before(r[j], r[i]) {
        if i == 0 {
          assert r[j] in multiset(s[1..]) + multiset{e} by { assert r[j] == rest[j - 1]; }
          if r[j] != e {
            var k :| 0 <= k < |s[1..]| && s[1..][k] == r[j];
            assert s[k + 1] == r[j];
          }
        } else {
          assert r[j] == rest[j - 1] && r[i] == rest[i - 1];
        }
      }
    }
  }

  /** Insertion keeps usernames distinct when `e`'s user is not yet present. */
  lemma {:induction false} InsertDistinct(e: LeaderboardEntry, s: seq<LeaderboardEntry>)
    requires DistinctNames(s)
    requires forall x :: x in s ==> x.username != e.username
    ensures DistinctNames(Insert(e, s))
  {
    if s != [] && !Before(e, s[0]) {
      var rest := Insert(e, s[1..]);
      InsertDistinct(e, s[1..]);
      var r := [s[0]] + rest;
      forall i, j | 0 <= i < j < |r| ensures r[i].username != r[j].username {
        if i == 0 {
          assert r[j] in multiset(s[1..]) + multiset{e} by { assert r[j] == rest[j - 1]; }
          if r[j] != e {
            var k :| 0 <= k < |s[1..]| && s[1..][k] == r[j];
            assert s[k + 1] == r[j];
          }
        } else {
          assert r[j] == rest[j - 1] && r[i] == rest[i - 1];
        }
      }
    }
  }

  /** Insertion sort by `Before`: the entries of `s`, reordered. */
  function Sort(s: seq<LeaderboardEntry>): (r: seq<LeaderboardEntry>)
    ensures multiset(r) == multiset(s)
  {
    if s == [] then []
    else
      assert s == [s[0]] + s[1..];
      Insert(s[0], Sort(s[1..]))
  }

  /** The sorted list is in comparator order and, for distinct users, keeps them distinct. */
  lemma {:induction false} SortSorted(s: seq<LeaderboardEntry>)
    ensures Sorted(Sort(s))
    ensures DistinctNames(s) ==> DistinctNames(Sort(s))
  {
    if s != [] {
      SortSorted(s[1..]);
      var rest := Sort(s[1..]);
      InsertSorted(s[0], rest);
      if DistinctNames(s) {
        forall x | x in rest ensures x.username != s[0].username {
          assert x in multiset(s[1..]);
          var k :| 0 <= k < |s[1..]| && s[1..][k] == x;
          assert s[k + 1] == x;
        }
        InsertDistinct(s[0], rest);
      }
    }
  }

  /** A sorted sequence of distinct users is strictly increasing in `Before`. */
  lemma SortedDistinctIsStrict(s: seq<LeaderboardEntry>)
    requires Sorted(s) && DistinctNames(s)
    ensures forall i, j :: 0 <= i < j < |s| ==> Before(s[i], s[j])
  {
    forall i, j | 0 <= i < j < |s| ensures Before(s[i], s[j]) {
      BeforeTotal(s[i], s[j]);
    }
  }

  /** The rank loop: the same entries in the same order, the entry at index `i` ranked `i + 1`. */
  method AssignRanks(entries: seq<LeaderboardEntry>) returns (ranked: seq<LeaderboardEntry>)
    ensures |ranked| == |entries|
    ensures forall i :: 0 <= i < |ranked| ==>
      ranked[i] == entries[i].(rank := i + 1)
  {
    ranked := [];
    for i := 0 to |entries|
      invariant |ranked| == i
      invariant forall k :: 0 <= k < i ==> ranked[k] == entries[k].(rank := k + 1)
    {
      var entry := entries[i];
      ranked := ranked + [LeaderboardEntry(entry.username, entry.score, i + 1, entry.questionsAnsweredCorrectly)];
    }
  }

  /** The usernames of the entries of `s`. */
  ghost function NamesOf(s: seq<LeaderboardEntry>): set<string> {
    set i | 0 <= i < |s| :: s[i].username
  }

  lemma NamesOfAppend(s: seq<LeaderboardEntry>, e: LeaderboardEntry)
    ensures NamesOf(s + [e]) == NamesOf(s) + {e.username}
  {
    var t := s + [e];
    assert t[|s|] == e;
    forall u | u in NamesOf(s) ensures u in NamesOf(t) {
      var i :| 0 <= i < |s| && s[i].username == u;
      assert t[i] == s[i];
    }
    forall u | u in NamesOf(t) ensures u in NamesOf(s) + {e.username} {
      var i :| 0 <= i < |t| && t[i].username == u;
      if i < |s| { assert t[i] == s[i]; }
    }
  }

  /** An entry of the stream's `map` step: snapshot score, rank not yet set. */
  predicate Unranked(e: LeaderboardEntry, allScores: map<string, int>, questionsCorrect: string -> int) {
    e.username in allScores && e == LeaderboardEntry(e.username, allScores[e.username], 0, questionsCorrect(e.username))
  }

  /**
   * The stream's `map` step over the snapshot's entry set, in the map's unspecified
   * order: one unranked entry per user with the snapshot score and the count
   * `questionsCorrect` gives for that user.
   */
  method EntriesOf(allScores: map<string, int>, questionsCorrect: string -> int) returns (entries: seq<LeaderboardEntry>)
    ensures |entries| == |allScores|
    ensures forall i :: 0 <= i < |entries| ==> Unranked(entries[i], allScores, questionsCorrect)
    ensures DistinctNames(entries)
  {
    var remaining := allScores.Keys;
    entries := [];
    while remaining != {}
      invariant remaining <= allScores.Keys
      invariant |entries| + |remaining| == |allScores|
      invariant forall i :: 0 <= i < |entries| ==> Unranked(entries[i], allScores, questionsCorrect)
      invariant forall i :: 0 <= i < |entries| ==> entries[i].username !in remaining
      invariant DistinctNames(entries)
      decreases remaining
    {
      var username :| username in remaining;
      entries := entries + [LeaderboardEntry(username, allScores[username], 0, questionsCorrect(username))];
      remaining := remaining - {username};
    }
  }

  /**
   * `board` is the leaderboard of the snapshot `allScores`: one entry per user of
   * the snapshot with that user's score, strictly in comparator order, the entry
   * at index `i` ranked `i + 1`. (That every user appears exactly once follows:
   * `LeaderboardCovers`.)
   */
  ghost predicate IsLeaderboard(board: seq<LeaderboardEntry>, allScores: map<string, int>) {
    && |board| == |allScores|
    && (forall i :: 0 <= i < |board| ==>
          board[i].username in allScores && board[i].score == allScores[board[i].username] && board[i].rank == i + 1)
    && (forall i, j :: 0 <= i < j < |board| ==> Before(board[i], board[j]))
  }

  /**
   * The body of `getLeaderboard` after the snapshot is taken: an empty snapshot
   * gives an empty list; otherwise map to entries, sort, and rank by position.
   */
  method BuildLeaderboard(allScores: map<string, int>, questionsCorrect: string -> int) returns (board: seq<LeaderboardEntry>)
    ensures IsLeaderboard(board, allScores)
    ensures forall i :: 0 <= i < |board| ==>
      board[i].questionsAnsweredCorrectly == questionsCorrect(board[i].username)
  {
    if |allScores| == 0 {
      return [];
    }
    var entries := EntriesOf(allScores, questionsCorrect);
    var sorted := Sort(entries);
    assert |sorted| == |multiset(sorted)| == |multiset(entries)| == |entries|;
    SortSorted(entries);
    SortedDistinctIsStrict(sorted);
    board := AssignRanks(sorted);
    PermutationEntries(entries, sorted, allScores, questionsCorrect);
    RankedOrder(sorted, board);
  }

  /** Reordering keeps every entry a snapshot entry. */
  lemma PermutationEntries(entries: seq<LeaderboardEntry>, sorted: seq<LeaderboardEntry>,
                           allScores: map<string, int>, questionsCorrect: string -> int)
    requires multiset(sorted) == multiset(entries)
    requires forall i :: 0 <= i < |entries| ==> Unranked(entries[i], allScores, questionsCorrect)
    ensures forall i :: 0 <= i < |sorted| ==>
      sorted[i].username in allScores && sorted[i].score == allScores[sorted[i].username] &&
      sorted[i].questionsAnsweredCorrectly == questionsCorrect(sorted[i].username)
  {
    forall i | 0 <= i < |sorted|
      ensures sorted[i].username in allScores && sorted[i].score == allScores[sorted[i].username]
      ensures sorted[i].questionsAnsweredCorrectly == questionsCorrect(sorted[i].username)
    {
      assert sorted[i] in multiset(entries);
    }
  }

  /** Ranks do not take part in the comparator, so ranking keeps the order. */
  lemma RankedOrder(s: seq<LeaderboardEntry>, ranked: seq<LeaderboardEntry>)
    requires |ranked| == |s|
    requires forall i :: 0 <= i < |s| ==> ranked[i] == s[i].(rank := i + 1)
    requires forall i, j :: 0 <= i < j < |s| ==> Before(s[i], s[j])
    ensures forall i, j :: 0 <= i < j < |ranked| ==> Before(ranked[i], ranked[j])
  {
    forall i, j | 0 <= i < j < |ranked| ensures Before(ranked[i], ranked[j]) {
      assert Before(s[i], s[j]);
    }
  }

  /** A leaderboard lists each user once. */
  lemma LeaderboardNamesDistinct(board: seq<LeaderboardEntry>, allScores: map<string, int>)
    requires IsLeaderboard(board, allScores)
    ensures DistinctNames(board)
  {
    forall i, j | 0 <= i < j < |board| ensures board[i].username != board[j].username {
      assert Before(board[i], board[j]);
    }
  }

  lemma {:induction false} SubsetSize<T>(a: set<T>, b: set<T>)
    requires a <= b
    ensures |a| <= |b|
    ensures |a| == |b| ==> a == b
    decreases a
  {
    if a != {} {
      var x :| x in a;
      SubsetSize(a - {x}, b - {x});
    } else if |b| == 0 {
      assert b == {};
    }
  }

  /** `n` entries with distinct names carry `n` names. */
  lemma {:induction false} DistinctNamesCount(s: seq<LeaderboardEntry>)
    requires DistinctNames(s)
    ensures |NamesOf(s)| == |s|
  {
    if s != [] {
      var init := s[..|s| - 1];
      assert DistinctNames(init);
      DistinctNamesCount(init);
      assert s == init + [s[|s| - 1]];
      NamesOfAppend(init, s[|s| - 1]);
      assert s[|s| - 1].username !in NamesOf(init);
    } else {
      assert NamesOf(s) == {};
    }
  }

  /** Every user of the snapshot is on its leaderboard. */
  lemma LeaderboardCovers(board: seq<LeaderboardEntry>, allScores: map<string, int>)
    requires IsLeaderboard(board, allScores)
    ensures NamesOf(board) == allScores.Keys
  {
    LeaderboardNamesDistinct(board, allScores);
    DistinctNamesCount(board);
    SubsetSize(NamesOf(board), allScores.Keys);
  }

  /** The position of a snapshot user on the leaderboard. */
  lemma PositionOf(board: seq<LeaderboardEntry>, allScores: map<string, int>, u: string) returns (m: nat)
    requires IsLeaderboard(board, allScores) && u in allScores
    ensures m < |board| && board[m].username == u && board[m].score == allScores[u]
  {
    LeaderboardCovers(board, allScores);
    m :| m < |board| && board[m].username == u;
  }

  lemma BeforeAsymmetric(a: LeaderboardEntry, b: LeaderboardEntry)
    requires Before(a, b)
    ensures !Before(b, a)
  {
    if Before(b, a) {
      BeforeTransitive(a, b, a);
      BeforeIrreflexive(a);
    }
  }

  /** Same score and username means the same place in the comparator order. */
  lemma NoMutualBefore(a: LeaderboardEntry, b: LeaderboardEntry, c: LeaderboardEntry, d: LeaderboardEntry)
    requires a.username == d.username && a.score == d.score
    requires b.username == c.username && b.score == c.score
    ensures !(Before(a, b) && Before(c, d))
  {
    if Before(a, b) {
      BeforeAsymmetric(a, b);
    }
  }

  /**
   * If `b1` and `b2` list the same users before index `i` and `b2[m]` is `b1[i]`'s
   * user, then `m` is not before `i`.
   */
  lemma NotEarlier(b1: seq<LeaderboardEntry>, b2: seq<LeaderboardEntry>, i: nat, m: nat)
    requires i < |b1| && m < |b2| && i <= |b2|
    requires forall k :: 0 <= k < i ==> b1[k].username == b2[k].username
    requires DistinctNames(b1)
    requires b2[m].username == b1[i].username
    ensures i <= m
  {
  }

  lemma {:induction false} LeaderboardPrefixUnique(b1: seq<LeaderboardEntry>, b2: seq<LeaderboardEntry>, allScores: map<string, int>, k: nat)
    requires IsLeaderboard(b1, allScores) && IsLeaderboard(b2, allScores)
    requires k <= |b1|
    ensures forall i :: 0 <= i < k ==> b1[i].username == b2[i].username
  {
    if k > 0 {
      LeaderboardPrefixUnique(b1, b2, allScores, k - 1);
      LeaderboardNamesDistinct(b1, allScores);
      LeaderboardNamesDistinct(b2, allScores);
      var i := k - 1;
      var m2 := PositionOf(b2, allScores, b1[i].username);
      var m1 := PositionOf(b1, allScores, b2[i].username);
      NotEarlier(b1, b2, i, m2);
      NotEarlier(b2, b1, i, m1);
      assert m1 > i ==> Before(b1[i], b1[m1]);
      assert m2 > i ==> Before(b2[i], b2[m2]);
      NoMutualBefore(b1[i], b1[m1], b2[i], b2[m2]);
      assert b1[i].username == b2[i].username;
      forall j | 0 <= j < k ensures b1[j].username == b2[j].username {
        if j < i {
        }
      }
    }
  }

  /**
   * The leaderboard of a snapshot is uniquely determined: any two lists meeting
   * `IsLeaderboard` agree entry by entry (up to the count column), whatever
   * sorting algorithm produced them.
   */
  lemma LeaderboardUnique(b1: seq<LeaderboardEntry>, b2: seq<LeaderboardEntry>, allScores: map<string, int>)
    requires IsLeaderboard(b1, allScores) && IsLeaderboard(b2, allScores)
    ensures |b1| == |b2|
    ensures forall i :: 0 <= i < |b1| ==>
      b1[i].username == b2[i].username && b1[i].score == b2[i].score && b1[i].rank == b2[i].rank
  {
    LeaderboardPrefixUnique(b1, b2, allScores, |b1|);
  }

  /**
   * Once the count column is fixed by a per-user count, as `getLeaderboard`
   * fixes it, the leaderboard of a snapshot is exactly one list.
   */
  lemma LeaderboardDetermined(b1: seq<LeaderboardEntry>, b2: seq<LeaderboardEntry>, allScores: map<string, int>,
                              questionsCorrect: string -> int)
    requires IsLeaderboard(b1, allScores) && IsLeaderboard(b2, allScores)
    requires forall i :: 0 <= i < |b1| ==> b1[i].questionsAnsweredCorrectly == questionsCorrect(b1[i].username)
    requires forall i :: 0 <= i < |b2| ==> b2[i].questionsAnsweredCorrectly == questionsCorrect(b2[i].username)
    ensures b1 == b2
  {
    LeaderboardUnique(b1, b2, allScores);
  }

  /**
   * Read off a leaderboard: ranks strictly increase, scores never increase, and
   * equal scores appear in strictly ascending username order.
   */
  lemma LeaderboardOrder(board: seq<LeaderboardEntry>, allScores: map<string, int>)
    requires IsLeaderboard(board, allScores)
    ensures forall i, j :: 0 <= i < j < |board| ==> board[i].rank < board[j].rank && board[i].score >= board[j].score
    ensures forall i, j :: 0 <= i < j < |board| && board[i].score == board[j].score ==>
      StringLess(board[i].username, board[j].username)
  {
  }

  /**
   * Scores 15, 20 and 10 for alice, bob and charlie: whatever order the
   * snapshot is enumerated in, the board lists bob, alice, charlie.
   */
  lemma ScoreOrderExample(board: seq<LeaderboardEntry>)
    requires IsLeaderboard(board, map["alice" := 15, "bob" := 20, "charlie" := 10])
    ensures |board| == 3
    ensures board[0].username == "bob" && board[1].username == "alice" && board[2].username == "charlie"
  {
    var allScores := map["alice" := 15, "bob" := 20, "charlie" := 10];
    var expected := [LeaderboardEntry("bob", 20, 1, 0), LeaderboardEntry("alice", 15, 2, 0), LeaderboardEntry("charlie", 10, 3, 0)];
    assert allScores.Keys == {"alice", "bob", "charlie"};
    assert IsLeaderboard(expected, allScores);
    LeaderboardUnique(expected, board, allScores);
  }

  /**
   * Three users tied at 10: the board lists them in ascending username
   * order, ranked 1, 2 and 3.
   */
  lemma TiebreakExample(board: seq<LeaderboardEntry>)
    requires IsLeaderboard(board, map["charlie" := 10, "alice" := 10, "bob" := 10])
    ensures |board| == 3
    ensures board[0].username == "alice" && board[1].username == "bob" && board[2].username == "charlie"
    ensures board[0].rank == 1 && board[1].rank == 2 && board[2].rank == 3
  {
    var allScores := map["charlie" := 10, "alice" := 10, "bob" := 10];
    var expected := [LeaderboardEntry("alice", 10, 1, 0), LeaderboardEntry("bob", 10, 2, 0), LeaderboardEntry("charlie", 10, 3, 0)];
    assert allScores.Keys == {"alice", "bob", "charlie"};
    assert IsLeaderboard(expected, allScores);
    LeaderboardUnique(expected, board, allScores);
  }
}
