/**
 * A fantasy-sports leaderboard (q31-leaderboard, Solution.java: class
 * FantasyLeaderboard).
 *
 * Each user registers a team of players; a player may be on many teams.
 * Player scores change by deltas, a user's score is the sum of the current
 * scores of the players on the team, and the ranking orders users by score,
 * highest first, then by user id.
 *
 * The ranking is a `TreeSet` of mutable entries whose comparator treats two
 * entries alike exactly when they carry the same user id and score, and an
 * entry's score is changed only while it is out of the set; so the set is
 * modelled as a set of (user, score) values. Registering a user id a second
 * time is modelled as the source does it: the old entry stays in the
 * ranking and the old team's players keep the user in their reverse index.
 */
module Leaderboard {
  import opened Common
  import Strings
  import opened Ordering

  /** A ranking entry: a user id and the score it was filed under. */
  datatype Entry = Entry(user: string, score: int)

  /**
   * `userToPlayers`, `playerToUsers`, `playerScore`, `userScore` and
   * `ranking`; `userToEntry` always names the entry filed under the user's
   * current score, so it is not kept separately.
   */
  datatype Board = Board(teams: map<string, set<string>>, fans: map<string, set<string>>,
                         playerScore: map<string, int>, userScore: map<string, int>,
                         ranking: set<Entry>)

  datatype TopKError = NegativeCapacity(k: int)

  function Empty(): Board {
    Board(map[], map[], map[], map[], {})
  }

  /** `playerScore.getOrDefault(p, 0)` as a function of the player. */
  function ScoreOf(scores: map<string, int>): string -> int {
    p => if p in scores then scores[p] else 0
  }

  /** `userScore.getOrDefault(u, 0)`. */
  function UserScore(b: Board, user: string): int {
    if user in b.userScore then b.userScore[user] else 0
  }

  /** The users whose teams list the player (`playerToUsers.get`, empty when absent). */
  function Fans(b: Board, player: string): set<string> {
    if player in b.fans then b.fans[player] else {}
  }

  /** The `HashSet` of a listed team. */
  function Team(players: seq<string>): (t: set<string>)
    ensures forall p :: p in t <==> p in players
  {
    set p | p in players
  }

  /** The distinct elements of a sequence, each at its first position (the `HashSet` copy of the team list). */
  function Dedup(s: seq<string>): (r: seq<string>)
    ensures Distinct(r)
    ensures forall x :: x in r <==> x in s
  {
    if s == [] then []
    else
      var init := Dedup(s[..|s| - 1]);
      var last := s[|s| - 1];
      assert forall x :: x in s <==> x in s[..|s| - 1] || x == last;
      if last in init then init else init + [last]
  }

  /**
   * `addUser`: the team is the set of listed players; each of them records
   * the user in its reverse index; the user's score, filed in the ranking,
   * is the sum of the team's current player scores.
   */
  function AddUser(b: Board, user: string, players: seq<string>): (r: Board)
    ensures r.teams == b.teams[user := Team(players)]
    ensures r.playerScore == b.playerScore
    ensures r.userScore == b.userScore[user := SetSum(Team(players), ScoreOf(b.playerScore))]
    ensures r.ranking == b.ranking + {Entry(user, r.userScore[user])}
    ensures forall p :: p in r.fans <==> p in b.fans || p in players
    ensures forall p, u :: u in Fans(r, p) <==> u in Fans(b, p) || (u == user && p in players)
  {
    var team := Team(players);
    var fans := map p | p in b.fans.Keys + team :: Fans(b, p) + (if p in team then {user} else {});
    var sum := SeqSum(Dedup(players), ScoreOf(b.playerScore));
    SeqSumIsSetSum(Dedup(players), ScoreOf(b.playerScore), team);
    Board(b.teams[user := team], fans, b.playerScore, b.userScore[user := sum], b.ranking + {Entry(user, sum)})
  }

  /**
   * `addScore`: the player's score moves by the delta, and so does the
   * score of every user in the player's reverse index, whose ranking entry
   * is refiled under the new score.
   */
  function AddScore(b: Board, player: string, delta: int): (r: Board)
    ensures r.teams == b.teams && r.fans == b.fans
    ensures r.playerScore == b.playerScore[player := ScoreOf(b.playerScore)(player) + delta]
    ensures forall u :: u in r.userScore <==> u in b.userScore || u in Fans(b, player)
    ensures forall u :: u in r.userScore ==> r.userScore[u] == UserScore(b, u) + (if u in Fans(b, player) then delta else 0)
    ensures forall e :: e in r.ranking <==>
              || (e in b.ranking && !(e.user in Fans(b, player) && e.score == UserScore(b, e.user)))
              || (e.user in Fans(b, player) && e.score == UserScore(b, e.user) + delta)
  {
    var affected := Fans(b, player);
    var scores := map u | u in b.userScore.Keys + affected :: UserScore(b, u) + (if u in affected then delta else 0);
    var stale := set u | u in affected :: Entry(u, UserScore(b, u));
    var refiled := set u | u in affected :: Entry(u, UserScore(b, u) + delta);
    assert forall e :: e in stale <==> e.user in affected && e.score == UserScore(b, e.user);
    assert forall e :: e in refiled <==> e.user in affected && e.score == UserScore(b, e.user) + delta;
    Board(b.teams, b.fans, b.playerScore[player := ScoreOf(b.playerScore)(player) + delta], scores, b.ranking - stale + refiled)
  }

  // ---------------------------------------------------------------------------
  // The ranking order and getTopK
  // ---------------------------------------------------------------------------

  /** The ranking comparator: higher score first, then the smaller user id. */
  predicate Before(a: Entry, b: Entry) {
    a.score > b.score || (a.score == b.score && Strings.Less(a.user, b.user))
  }

  lemma BeforeTotal(a: Entry, b: Entry)
    ensures a == b || Before(a, b) || Before(b, a)
  {
    if a.user != b.user {
      Strings.LessTotal(a.user, b.user);
    }
  }

  lemma BeforeStrict(a: Entry, b: Entry, c: Entry)
    ensures !Before(a, a)
    ensures Before(a, b) && Before(b, c) ==> Before(a, c)
  {
    Strings.LessIrreflexive(a.user);
    if Before(a, b) && Before(b, c) && a.score == c.score {
      Strings.LessTransitive(a.user, b.user, c.user);
    }
  }

  /** `m` comes before every other entry of `s`. */
  predicate IsFirst(m: Entry, s: set<Entry>) {
    m in s && forall y :: y in s && y != m ==> Before(m, y)
  }

  lemma {:induction false} FirstExists(s: set<Entry>)
    requires s != {}
    ensures exists m :: IsFirst(m, s)
    decreases |s|
  {
    var x :| x in s;
    if s == {x} {
      assert IsFirst(x, s);
    } else {
      FirstExists(s - {x});
      var m :| IsFirst(m, s - {x});
      BeforeTotal(m, x);
      if Before(x, m) {
        forall y | y in s && y != x
          ensures Before(x, y)
        {
          if y != m {
            BeforeStrict(x, m, y);
          }
        }
        assert IsFirst(x, s);
      } else {
        assert IsFirst(m, s);
      }
    }
  }

  ghost function First(s: set<Entry>): (m: Entry)
    requires s != {}
    ensures IsFirst(m, s)
  {
    FirstExists(s);
    var m :| IsFirst(m, s);
    m
  }

  /** The `TreeSet`'s iteration order: every entry once, in comparator order. */
  ghost function Listing(s: set<Entry>): (r: seq<Entry>)
    ensures |r| == |s|
    ensures forall e :: e in r <==> e in s
    ensures forall i, j :: 0 <= i < j < |r| ==> Before(r[i], r[j])
    decreases |s|
  {
    if s == {} then []
    else
      var m := First(s);
      var rest := Listing(s - {m});
      var r := [m] + rest;
      assert forall i, j :: 0 <= i < j < |r| ==> Before(r[i], r[j]) by {
        forall i, j | 0 <= i < j < |r|
          ensures Before(r[i], r[j])
        {
          assert r[j] == rest[j - 1];
          if i > 0 {
            assert r[i] == rest[i - 1];
          } else {
            assert rest[j - 1] in s - {m};
          }
        }
      }
      r
  }

  /** The user ids of a run of entries. */
  function Users(l: seq<Entry>): (r: seq<string>)
    ensures |r| == |l|
    ensures forall i :: 0 <= i < |l| ==> r[i] == l[i].user
  {
    if l == [] then [] else [l[0].user] + Users(l[1..])
  }

  /**
   * `getTopK`: the user ids of the first min(k, ranking size) entries in
   * ranking order; a negative k makes `new ArrayList<>(limit)` throw.
   */
  ghost function TopK(b: Board, k: int): (r: Result<seq<string>, TopKError>)
    ensures r.Err? <==> k < 0
    ensures r.Ok? ==> |r.value| <= k && |r.value| <= |b.ranking|
    ensures r.Ok? && |r.value| < k ==> |r.value| == |b.ranking|
    ensures r.Ok? ==> forall i :: 0 <= i < |r.value| ==> exists e :: e in b.ranking && e.user == r.value[i]
  {
    if k < 0 then Err(NegativeCapacity(k))
    else
      var listing := Listing(b.ranking);
      var limit := if k < |listing| then k else |listing|;
      var ids := Users(listing[..limit]);
      assert forall i :: 0 <= i < limit ==> listing[i] in b.ranking && listing[i].user == ids[i];
      Ok(ids)
  }

  // ---------------------------------------------------------------------------
  // The board invariant, for boards whose users registered once each
  // ---------------------------------------------------------------------------

  /** The reverse index lists exactly the users whose teams hold the player. */
  predicate FansOk(b: Board) {
    && (forall p, u :: p in b.fans && u in b.fans[p] ==> u in b.teams && p in b.teams[u])
    && (forall u, p :: u in b.teams && p in b.teams[u] ==> p in b.fans && u in b.fans[p])
  }

  /** Every user's score is the sum of the current scores of the team's players. */
  ghost predicate ScoresOk(b: Board) {
    forall u :: u in b.userScore ==> u in b.teams && b.userScore[u] == SetSum(b.teams[u], ScoreOf(b.playerScore))
  }

  /** The ranking holds one entry per user, filed under the user's score. */
  ghost predicate RankingOk(b: Board) {
    forall e :: e in b.ranking <==> e.user in b.userScore && b.userScore[e.user] == e.score
  }

  ghost predicate Valid(b: Board) {
    b.teams.Keys == b.userScore.Keys && FansOk(b) && ScoresOk(b) && RankingOk(b)
  }

  lemma EmptyValid()
    ensures Valid(Empty())
  {
  }

  lemma AddUserFans(b: Board, user: string, players: seq<string>)
    requires FansOk(b) && user !in b.teams
    ensures FansOk(AddUser(b, user, players))
  {
    AddUserFansOnTeams(b, user, players);
    AddUserTeamsInFans(b, user, players);
  }

  lemma AddUserFansOnTeams(b: Board, user: string, players: seq<string>)
    requires FansOk(b) && user !in b.teams
    ensures var r := AddUser(b, user, players);
            forall p, u :: p in r.fans && u in r.fans[p] ==> u in r.teams && p in r.teams[u]
  {
    var r := AddUser(b, user, players);
    forall p, u | p in r.fans && u in r.fans[p]
      ensures u in r.teams && p in r.teams[u]
    {
      assert u in Fans(r, p);
    }
  }

  lemma AddUserTeamsInFans(b: Board, user: string, players: seq<string>)
    requires FansOk(b)
    ensures var r := AddUser(b, user, players);
            forall u, p :: u in r.teams && p in r.teams[u] ==> p in r.fans && u in r.fans[p]
  {
    var r := AddUser(b, user, players);
    forall u, p | u in r.teams && p in r.teams[u]
      ensures p in r.fans && u in r.fans[p]
    {
      assert u in Fans(r, p) by {
        if u != user {
          assert u in Fans(b, p);
        }
      }
    }
  }

  lemma AddUserScores(b: Board, user: string, players: seq<string>)
    requires ScoresOk(b)
    ensures ScoresOk(AddUser(b, user, players))
  {
    var r := AddUser(b, user, players);
    forall u | u in r.userScore
      ensures u in r.teams && r.userScore[u] == SetSum(r.teams[u], ScoreOf(r.playerScore))
    {
      if u != user {
        assert r.teams[u] == b.teams[u] && r.userScore[u] == b.userScore[u];
      }
    }
  }

  lemma AddUserRanking(b: Board, user: string, players: seq<string>)
    requires RankingOk(b) && user !in b.userScore
    ensures RankingOk(AddUser(b, user, players))
  {
    var r := AddUser(b, user, players);
    forall e
      ensures e in r.ranking <==> e.user in r.userScore && r.userScore[e.user] == e.score
    {
      if e.user != user {
        assert e.user in r.userScore <==> e.user in b.userScore;
        assert e.user in b.userScore ==> r.userScore[e.user] == b.userScore[e.user];
      }
    }
  }

  /** Registering a new user keeps the invariant. */
  lemma AddUserValid(b: Board, user: string, players: seq<string>)
    requires Valid(b) && user !in b.teams
    ensures Valid(AddUser(b, user, players))
  {
    AddUserFans(b, user, players);
    AddUserScores(b, user, players);
    AddUserRanking(b, user, players);
  }

  /** A user whose team holds the player gains exactly the delta; any other user keeps the same sum. */
  lemma TeamSumAfterScore(b: Board, player: string, delta: int, team: set<string>)
    ensures var after := b.playerScore[player := ScoreOf(b.playerScore)(player) + delta];
            SetSum(team, ScoreOf(after)) == SetSum(team, ScoreOf(b.playerScore)) + (if player in team then delta else 0)
  {
    var after := b.playerScore[player := ScoreOf(b.playerScore)(player) + delta];
    var f := ScoreOf(b.playerScore);
    var g := ScoreOf(after);
    if player in team {
      SetSumBump(team, f, g, player, delta);
      assert team + {player} == team;
    } else {
      SetSumFrame(team, f, g);
    }
  }

  lemma AddScoreScores(b: Board, player: string, delta: int)
    requires b.teams.Keys == b.userScore.Keys && FansOk(b) && ScoresOk(b)
    ensures ScoresOk(AddScore(b, player, delta))
  {
    var r := AddScore(b, player, delta);
    forall u | u in r.userScore
      ensures u in r.teams && r.userScore[u] == SetSum(r.teams[u], ScoreOf(r.playerScore))
    {
      TeamSumAfterScore(b, player, delta, b.teams[u]);
      assert u in Fans(b, player) <==> player in b.teams[u];
    }
  }

  lemma AddScoreRanking(b: Board, player: string, delta: int)
    requires b.teams.Keys == b.userScore.Keys && FansOk(b) && RankingOk(b)
    ensures RankingOk(AddScore(b, player, delta))
  {
    var r := AddScore(b, player, delta);
    forall e
      ensures e in r.ranking <==> e.user in r.userScore && r.userScore[e.user] == e.score
    {
      if e.user in Fans(b, player) {
        assert e.user in b.userScore;
      }
    }
  }

  lemma AddScoreKeys(b: Board, player: string, delta: int)
    requires b.teams.Keys == b.userScore.Keys && FansOk(b)
    ensures AddScore(b, player, delta).userScore.Keys == b.userScore.Keys
  {
    assert forall u :: u in Fans(b, player) ==> u in b.userScore;
  }

  lemma FansFrame(b: Board, r: Board)
    requires FansOk(b) && r.fans == b.fans && r.teams == b.teams
    ensures FansOk(r)
  {
  }

  /** Adding to a player's score keeps the invariant. */
  lemma AddScoreValid(b: Board, player: string, delta: int)
    requires Valid(b)
    ensures Valid(AddScore(b, player, delta))
  {
    AddScoreKeys(b, player, delta);
    FansFrame(b, AddScore(b, player, delta));
    AddScoreScores(b, player, delta);
    AddScoreRanking(b, player, delta);
  }

  // ---------------------------------------------------------------------------
  // Properties
  // ---------------------------------------------------------------------------

  /** A new user starts at the sum of the team's current player scores, points earned before joining included. */
  lemma NewUserScore(b: Board, user: string, players: seq<string>)
    ensures UserScore(AddUser(b, user, players), user) == SetSum(Team(players), ScoreOf(b.playerScore))
  {
  }

  /** A score change reaches exactly the users whose teams hold the player. */
  lemma AddScoreReaches(b: Board, player: string, delta: int, user: string)
    requires Valid(b) && user in b.teams
    ensures UserScore(AddScore(b, player, delta), user) ==
              UserScore(b, user) + (if player in b.teams[user] then delta else 0)
  {
  }

  /** User x is ranked ahead of user y. */
  predicate RanksBefore(b: Board, x: string, y: string)
    requires x in b.userScore && y in b.userScore
  {
    Before(Entry(x, b.userScore[x]), Entry(y, b.userScore[y]))
  }

  /**
   * On a valid board `getTopK` lists registered users in ranking order, at
   * most k of them, and leaves a user out only when k users rank ahead.
   */
  lemma TopKIsBest(b: Board, k: int)
    requires Valid(b) && k >= 0
    ensures var r := TopK(b, k).value;
            && (forall i :: 0 <= i < |r| ==> r[i] in b.userScore)
            && (forall i, j :: 0 <= i < j < |r| ==> RanksBefore(b, r[i], r[j]))
            && |r| <= k
            && (forall u :: u in b.userScore && u !in r ==> |r| == k && forall i :: 0 <= i < |r| ==> RanksBefore(b, r[i], u))
  {
    var r := TopK(b, k).value;
    TopKOrdered(b, k);
    forall u | u in b.userScore && u !in r
      ensures |r| == k && forall i :: 0 <= i < |r| ==> RanksBefore(b, r[i], u)
    {
      LeftOut(b, k, u);
    }
  }

  /** `getTopK` reads the first min(k, size) entries of the ranking's listing. */
  lemma TopKUsers(b: Board, k: int)
    requires k >= 0
    ensures |TopK(b, k).value| == (if k < |b.ranking| then k else |b.ranking|)
    ensures forall i :: 0 <= i < |TopK(b, k).value| ==> TopK(b, k).value[i] == Listing(b.ranking)[i].user
  {
  }

  /** The listed users are registered and in ranking order. */
  lemma TopKOrdered(b: Board, k: int)
    requires RankingOk(b) && k >= 0
    ensures var r := TopK(b, k).value;
            && (forall i :: 0 <= i < |r| ==> r[i] in b.userScore)
            && (forall i, j :: 0 <= i < j < |r| ==> RanksBefore(b, r[i], r[j]))
  {
    var r := TopK(b, k).value;
    var listing := Listing(b.ranking);
    ListingOfValid(b);
    TopKUsers(b, k);
    forall i, j | 0 <= i < j < |r|
      ensures RanksBefore(b, r[i], r[j])
    {
      assert listing[i] == Entry(r[i], b.userScore[r[i]]);
      assert listing[j] == Entry(r[j], b.userScore[r[j]]);
    }
  }

  /** On a valid board the listing holds every user once, filed under the user's score. */
  lemma ListingOfValid(b: Board)
    requires RankingOk(b)
    ensures forall i :: 0 <= i < |Listing(b.ranking)| ==>
              Listing(b.ranking)[i].user in b.userScore && Listing(b.ranking)[i].score == b.userScore[Listing(b.ranking)[i].user]
    ensures forall u :: u in b.userScore ==> Entry(u, b.userScore[u]) in Listing(b.ranking)
  {
  }

  /** A registered user that `getTopK` leaves out comes after k listed users. */
  lemma LeftOut(b: Board, k: int, u: string)
    requires RankingOk(b) && k >= 0 && u in b.userScore && u !in TopK(b, k).value
    ensures var r := TopK(b, k).value;
            |r| == k && forall i :: 0 <= i < |r| ==> r[i] in b.userScore && RanksBefore(b, r[i], u)
  {
    var r := TopK(b, k).value;
    var listing := Listing(b.ranking);
    ListingOfValid(b);
    TopKUsers(b, k);
    var e := Entry(u, b.userScore[u]);
    var j :| 0 <= j < |listing| && listing[j] == e;
    assert forall i :: 0 <= i < |r| ==> listing[i].user == r[i] && r[i] != u;
    assert j >= |r|;
  }

  /** A user listed by `getTopK` is listed once. */
  lemma TopKDistinct(b: Board, k: int)
    requires Valid(b) && k >= 0
    ensures Distinct(TopK(b, k).value)
  {
    TopKIsBest(b, k);
    var r := TopK(b, k).value;
    forall i, j | 0 <= i < j < |r|
      ensures r[i] != r[j]
    {
      BeforeStrict(Entry(r[i], b.userScore[r[i]]), Entry(r[i], b.userScore[r[i]]), Entry(r[i], b.userScore[r[i]]));
    }
  }

  /**
   * Registering a user id a second time keeps the old ranking entry and the
   * old team's reverse index. After a user registers with player p, p
   * scores d != 0, and the user registers again with another player q:
   * `getTopK(2)` lists the user twice, and a later score e for p still
   * reaches the user although p is no longer on the team.
   */
  lemma ReRegistering(u: string, p: string, q: string, d: int, e: int)
    requires p != q && d != 0
    ensures var b1 := AddScore(AddUser(Empty(), u, [p]), p, d);
            var b2 := AddUser(b1, u, [q]);
            && b2.ranking == {Entry(u, d), Entry(u, 0)}
            && TopK(b2, 2) == Ok([u, u])
            && b2.teams[u] == {q}
            && UserScore(AddScore(b2, p, e), u) == e
  {
    var b0 := AddUser(Empty(), u, [p]);
    FirstRegistration(u, p);
    FirstScore(b0, u, p, d);
    var b1 := AddScore(b0, p, d);
    SecondRegistration(b1, u, p, q, d);
    var b2 := AddUser(b1, u, [q]);
    ListedTwice(b2, u, d);
    LateScore(b2, u, p, e);
  }

  lemma FirstRegistration(u: string, p: string)
    ensures var b0 := AddUser(Empty(), u, [p]);
            && b0.userScore == map[u := 0] && b0.ranking == {Entry(u, 0)}
            && b0.playerScore == map[] && Fans(b0, p) == {u}
  {
    SetSumRemove({p}, ScoreOf(map[]), p);
    assert {p} - {p} == {};
    assert Team([p]) == {p};
  }

  lemma FirstScore(b0: Board, u: string, p: string, d: int)
    requires b0.userScore == map[u := 0] && b0.ranking == {Entry(u, 0)}
    requires b0.playerScore == map[] && Fans(b0, p) == {u}
    ensures var b1 := AddScore(b0, p, d);
            && b1.ranking == {Entry(u, d)}
            && b1.playerScore == map[p := d] && Fans(b1, p) == {u}
  {
    var b1 := AddScore(b0, p, d);
    assert b1.ranking == {Entry(u, d)} by {
      forall x ensures x in b1.ranking <==> x == Entry(u, d) {
      }
    }
  }

  lemma SecondRegistration(b1: Board, u: string, p: string, q: string, d: int)
    requires p != q
    requires b1.ranking == {Entry(u, d)} && b1.playerScore == map[p := d] && Fans(b1, p) == {u}
    ensures var b2 := AddUser(b1, u, [q]);
            && b2.ranking == {Entry(u, d), Entry(u, 0)}
            && b2.teams[u] == {q}
            && u in b2.userScore && b2.userScore[u] == 0
            && Fans(b2, p) == {u}
  {
    SetSumRemove({q}, ScoreOf(b1.playerScore), q);
    assert {q} - {q} == {};
    assert Team([q]) == {q};
    var b2 := AddUser(b1, u, [q]);
    assert Fans(b2, p) == {u} by {
      forall x ensures x in Fans(b2, p) <==> x == u {
      }
    }
  }

  lemma ListedTwice(b2: Board, u: string, d: int)
    requires d != 0 && b2.ranking == {Entry(u, d), Entry(u, 0)}
    ensures TopK(b2, 2) == Ok([u, u])
  {
    var listing := Listing(b2.ranking);
    assert |b2.ranking| == 2;
    assert listing[0] in b2.ranking && listing[1] in b2.ranking;
    var ids := Users(listing[..2]);
    assert ids[0] == u && ids[1] == u;
    assert ids == [u, u];
  }

  lemma LateScore(b2: Board, u: string, p: string, e: int)
    requires u in b2.userScore && b2.userScore[u] == 0
    requires Fans(b2, p) == {u}
    ensures UserScore(AddScore(b2, p, e), u) == e
  {
  }
}
