/** The in-memory score table: a list kept sorted by score, highest first, plus its
    filter/sort/take queries. */
module ScoreRepository {
  import opened Lists
  import opened KotlinLang
  import opened Models

  /** Non-increasing by `score`. */
  predicate SortedDesc(s: seq<Score>)
  {
    forall i, j :: 0 <= i < j < |s| ==> s[i].score >= s[j].score
  }

  /** Puts `x` in front of the first entry whose score is not higher, so that it precedes
      the entries with an equal score. */
  function Insert(x: Score, s: seq<Score>): (r: seq<Score>)
    requires SortedDesc(s)
    ensures |r| == |s| + 1
    ensures r[0] == x || (s != [] && r[0] == s[0])
    ensures SortedDesc(r)
    ensures multiset(r) == multiset(s) + multiset{x}
  {
    if s == [] || x.score >= s[0].score then
      ConsSorted(x, s);
      [x] + s
    else
      assert s == [s[0]] + s[1..];
      assert multiset(s) == multiset{s[0]} + multiset(s[1..]);
      var rest := Insert(x, s[1..]);
      ConsSorted(s[0], rest);
      assert multiset([s[0]] + rest) == multiset{s[0]} + multiset(rest);
      [s[0]] + rest
  }

  /** An entry at least as high as the head of a sorted list can go in front of it. */
  lemma ConsSorted(x: Score, s: seq<Score>)
    requires SortedDesc(s) && (s == [] || x.score >= s[0].score)
    ensures SortedDesc([x] + s)
  {
    var r := [x] + s;
    forall i, j | 0 <= i < j < |r| ensures r[i].score >= r[j].score {
      if i == 0 {
        assert r[j] == s[j - 1];
        assert s[0].score >= s[j - 1].score;
      } else {
        assert r[i] == s[i - 1] && r[j] == s[j - 1];
      }
    }
  }

  /** Kotlin's `sortedByDescending { it.score }`, a stable sort. */
  function SortDesc(s: seq<Score>): (r: seq<Score>)
    ensures SortedDesc(r)
    ensures multiset(r) == multiset(s)
    ensures |r| == |s|
  {
    if s == [] then []
    else
      assert s == [s[0]] + s[1..];
      Insert(s[0], SortDesc(s[1..]))
  }

  function WithScore(k: int): Score -> bool
  {
    (x: Score) => x.score == k
  }

  lemma {:induction false} InsertStable(x: Score, s: seq<Score>, k: int)
    requires SortedDesc(s)
    ensures Filter(Insert(x, s), WithScore(k)) ==
      if x.score == k then [x] + Filter(s, WithScore(k)) else Filter(s, WithScore(k))
  {
    var keep := WithScore(k);
    var r := Insert(x, s);
    if s == [] || x.score >= s[0].score {
      FilterCons(x, s, keep);
    } else {
      InsertStable(x, s[1..], k);
      FilterCons(s[0], Insert(x, s[1..]), keep);
      FilterCons(s[0], s[1..], keep);
      assert s == [s[0]] + s[1..];
    }
  }

  /** The sort is stable: the entries of any one score keep their stored order. */
  lemma {:induction false} SortDescStable(s: seq<Score>, k: int)
    ensures Filter(SortDesc(s), WithScore(k)) == Filter(s, WithScore(k))
  {
    if s != [] {
      SortDescStable(s[1..], k);
      InsertStable(s[0], SortDesc(s[1..]), k);
    }
  }

  /** A list already sorted is left as it is. */
  lemma {:induction false} SortDescOfSorted(s: seq<Score>)
    requires SortedDesc(s)
    ensures SortDesc(s) == s
  {
    if s != [] {
      SortDescOfSorted(s[1..]);
      assert s == [s[0]] + s[1..];
    }
  }

  /** getTopScores: the first `limit` entries of the sorted list. */
  function TopScores(scores: seq<Score>, limit: int): (r: seq<Score>)
    requires limit >= 0
    ensures |r| == if limit < |scores| then limit else |scores|
    ensures SortedDesc(r)
    ensures multiset(r) <= multiset(scores)
    ensures forall x, y :: x in r && y in multiset(scores) - multiset(r) ==> x.score >= y.score
  {
    var n := if limit < |scores| then limit else |scores|;
    TakeSplit(scores, n);
    SortDesc(scores)[..n]
  }

  /** The first `n` entries of the sorted list outscore every entry left out. */
  lemma TakeSplit(scores: seq<Score>, n: nat)
    requires n <= |scores|
    ensures var r := SortDesc(scores)[..n];
      && SortedDesc(r)
      && multiset(r) <= multiset(scores)
      && forall x, y :: x in r && y in multiset(scores) - multiset(r) ==> x.score >= y.score
  {
    var sorted := SortDesc(scores);
    LeftOut(sorted, scores, n);
    PrefixOutscoresRest(sorted, n);
    PrefixSorted(sorted, n);
    assert forall y :: y in multiset(scores) - multiset(sorted[..n]) ==> y in sorted[n..];
  }

  lemma PrefixSorted(s: seq<Score>, n: nat)
    requires n <= |s| && SortedDesc(s)
    ensures SortedDesc(s[..n])
  {
    assert forall i :: 0 <= i < n ==> s[..n][i] == s[i];
  }

  /** What `take(n)` leaves out of a permutation of `scores`. */
  lemma LeftOut(sorted: seq<Score>, scores: seq<Score>, n: nat)
    requires n <= |sorted| && multiset(sorted) == multiset(scores)
    ensures multiset(scores) - multiset(sorted[..n]) == multiset(sorted[n..])
    ensures multiset(sorted[..n]) <= multiset(scores)
  {
    assert sorted == sorted[..n] + sorted[n..];
  }

  lemma PrefixOutscoresRest(s: seq<Score>, n: nat)
    requires n <= |s| && SortedDesc(s)
    ensures forall x, y :: x in s[..n] && y in s[n..] ==> x.score >= y.score
  {
    forall x, y | x in s[..n] && y in s[n..] ensures x.score >= y.score {
      var i :| 0 <= i < n && s[..n][i] == x;
      var j :| 0 <= j < |s| - n && s[n..][j] == y;
      assert s[i] == x && s[n + j] == y;
    }
  }

  function OfUser(scores: seq<Score>, userId: string): seq<Score>
  {
    Filter(scores, (x: Score) => x.userId == userId)
  }

  function OfGame(scores: seq<Score>, gameId: string): seq<Score>
  {
    SortDesc(Filter(scores, (x: Score) => x.gameId == gameId))
  }

  function WithoutScore(scores: seq<Score>, scoreId: string): seq<Score>
  {
    Filter(scores, (x: Score) => x.id != scoreId)
  }

  /** The id addScore gives a new entry: "score_" and the millisecond, which can be
      read back from it. */
  function ScoreId(millis: nat): (r: string)
    ensures |r| > 6 && r[..6] == "score_" && r[6..] == DecimalString(millis)
    ensures DecimalValue(r[6..]) == millis
  {
    DecimalRoundTrip(millis);
    var r := "score_" + DecimalString(millis);
    assert r[6..] == DecimalString(millis);
    r
  }

  /** Entries added at different milliseconds get different ids. */
  lemma ScoreIdsDiffer(a: nat, b: nat)
    requires a != b
    ensures ScoreId(a) != ScoreId(b)
  {
    PrefixedDecimalInjective("score_", a, b);
  }

  /** The two entries the table starts with. Each record reads the clock for its own
      `playedAt`, so each gets its own timestamp. */
  function SeedScores(t0: int, t1: int): seq<Score>
  {
    [ Score("score1", "player1", "jugador1", "snake", "Snake Classic", 150, t0),
      Score("score2", "player1", "jugador1", "snake", "Snake Classic", 89, t1) ]
  }

  /** The source's `SimpleScoreRepository`. */
  class ScoreRepo {
    var scores: seq<Score>

    /** The table is sorted by score, highest first. */
    ghost predicate Valid()
      reads this
    {
      SortedDesc(scores)
    }

    constructor (t0: int, t1: int)
      ensures Valid()
      ensures scores == SeedScores(t0, t1)
    {
      scores := SeedScores(t0, t1);
    }

    /** addScore: a copy of the entry under a timestamp id joins the table, which is then
        re-sorted by score. */
    method AddScore(score: Score, millis: nat)
      requires Valid()
      modifies this
      ensures Valid()
      ensures scores == SortDesc(old(scores) + [score.(id := ScoreId(millis))])
      ensures multiset(scores) == multiset(old(scores)) + multiset{score.(id := ScoreId(millis))}
    {
      var newScore := score.(id := ScoreId(millis));
      scores := SortDesc(scores + [newScore]);
    }

    /** deleteScore: removes exactly the entries with that id, keeping the order. */
    method DeleteScore(scoreId: string)
      requires Valid()
      modifies this
      ensures Valid()
      ensures scores == WithoutScore(old(scores), scoreId)
      ensures forall x :: x in scores <==> x in old(scores) && x.id != scoreId
    {
      scores := WithoutScore(scores, scoreId);
      assert IsSubsequence(scores, old(scores));
      SubsequenceKeepsSorted(scores, old(scores));
    }

    /** getScoresByUser: exactly the user's entries, in stored order. */
    function GetScoresByUser(userId: string): (r: seq<Score>)
      reads this
      ensures forall x :: x in r <==> x in scores && x.userId == userId
      ensures forall x :: multiset(r)[x] == if x.userId == userId then multiset(scores)[x] else 0
      ensures IsSubsequence(r, scores)
    {
      FilterMultiset(scores, (x: Score) => x.userId == userId);
      OfUser(scores, userId)
    }

    /** getScoresByGame: exactly the game's entries, highest first. */
    function GetScoresByGame(gameId: string): (r: seq<Score>)
      reads this
      ensures SortedDesc(r)
      ensures forall x :: multiset(r)[x] == if x.gameId == gameId then multiset(scores)[x] else 0
    {
      FilterMultiset(scores, (x: Score) => x.gameId == gameId);
      OfGame(scores, gameId)
    }

    /** getTopScores: `take` refuses a negative count. */
    function GetTopScores(limit: int := 10): (r: seq<Score>)
      requires limit >= 0
      reads this
      ensures |r| == if limit < |scores| then limit else |scores|
      ensures SortedDesc(r) && multiset(r) <= multiset(scores)
      ensures forall x, y :: x in r && y in multiset(scores) - multiset(r) ==> x.score >= y.score
    {
      TopScores(scores, limit)
    }
  }

  /** Keeping some entries of a sorted list in order keeps it sorted. */
  lemma {:induction false} SubsequenceKeepsSorted(r: seq<Score>, s: seq<Score>)
    requires IsSubsequence(r, s) && SortedDesc(s)
    ensures SortedDesc(r)
  {
    if r != [] && s != [] {
      assert SortedDesc(s[1..]);
      if r[0] == s[0] {
        SubsequenceKeepsSorted(r[1..], s[1..]);
        SubsequenceMembers(r[1..], s[1..]);
        forall i, j | 0 <= i < j < |r| ensures r[i].score >= r[j].score {
          assert r[j] == r[1..][j - 1];
          if i == 0 {
            assert r[j] in s[1..];
            var k :| 0 <= k < |s| - 1 && s[1..][k] == r[j];
            assert s[k + 1] == r[j];
          } else {
            assert r[i] == r[1..][i - 1];
          }
        }
      } else {
        SubsequenceKeepsSorted(r, s[1..]);
      }
    }
  }

  lemma {:induction false} SubsequenceMembers<T>(r: seq<T>, s: seq<T>)
    requires IsSubsequence(r, s)
    ensures forall x :: x in r ==> x in s
  {
    if r != [] && s != [] {
      if r[0] == s[0] {
        SubsequenceMembers(r[1..], s[1..]);
        assert forall x :: x in r ==> x == r[0] || x in r[1..];
      } else {
        SubsequenceMembers(r, s[1..]);
      }
    }
  }
}
