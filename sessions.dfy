/** One theoretical round of the schedule turned into matches
    (Tournament.swift, lines 211-348): the schedule configuration, the
    split of a round's pairings into real and bye pairings, the matches of
    a session, and the sessions of a round. */
module Sessions {
  import opened Counting
  import opened Arith
  import opened Model
  import opened Circle

  // ---------------------------------------------------------------------
  // ScheduleConfig
  // ---------------------------------------------------------------------

  datatype ScheduleConfig = ScheduleConfig(
    workingTeams: seq<Team>,
    totalTeams: nat,
    idealRounds: int,
    matchesPerRound: nat,
    availableCourts: int)

  /** ScheduleConfig.init: an odd roster gets a Bye placeholder (UUID
      `byeId`) appended, so the working roster always has even size. */
  function MakeConfig(teams: seq<Team>, availableCourts: int, byeId: nat): (config: ScheduleConfig)
    ensures |config.workingTeams| % 2 == 0
    ensures |teams| <= |config.workingTeams| <= |teams| + 1
    ensures config.workingTeams[..|teams|] == teams
    ensures forall i :: |teams| <= i < |config.workingTeams| ==> config.workingTeams[i] == ByeTeam(byeId)
    ensures config.totalTeams == |config.workingTeams|
    ensures config.idealRounds == config.totalTeams - 1
    ensures config.matchesPerRound == config.totalTeams / 2
  {
    var working := if |teams| % 2 != 0 then teams + [ByeTeam(byeId)] else teams;
    ScheduleConfig(working, |working|, |working| - 1, |working| / 2, availableCourts)
  }

  /** Padding is idempotent: the working roster of a working roster is
      itself, whatever UUID a second placeholder would get. */
  lemma PaddingIdempotent(teams: seq<Team>, availableCourts: int, byeId: nat, byeId': nat)
    ensures MakeConfig(MakeConfig(teams, availableCourts, byeId).workingTeams, availableCourts, byeId').workingTeams
      == MakeConfig(teams, availableCourts, byeId).workingTeams
  {
  }

  /** Padding adds exactly the missing Bye and leaves the active teams alone. */
  lemma PaddingByes(teams: seq<Team>, availableCourts: int, byeId: nat)
    ensures Count(MakeConfig(teams, availableCourts, byeId).workingTeams, IsBye) == Count(teams, IsBye) + |teams| % 2
    ensures ActiveTeams(MakeConfig(teams, availableCourts, byeId).workingTeams) == ActiveTeams(teams)
  {
    var working := MakeConfig(teams, availableCourts, byeId).workingTeams;
    if |teams| % 2 != 0 {
      assert working == teams + [ByeTeam(byeId)];
      assert working[..|working| - 1] == teams;
      FilterAppend(teams, [ByeTeam(byeId)], IsBye, false);
      assert Filter([ByeTeam(byeId)], IsBye, false) == [] by {
        assert [ByeTeam(byeId)][..0] == [];
      }
    }
  }

  // ---------------------------------------------------------------------
  // separatePairings
  // ---------------------------------------------------------------------

  /** A pairing of two roster indices neither of which is the Bye placeholder. */
  function RealPair(teams: seq<Team>): Pair -> bool
  {
    (p: Pair) => p.first < |teams| && p.second < |teams| && !IsBye(teams[p.first]) && !IsBye(teams[p.second])
  }

  /** separatePairings: the real pairings and the bye pairings, each in
      the order of the round. */
  method SeparatePairings(pairings: seq<Pair>, teams: seq<Team>) returns (realPs: seq<Pair>, byePs: seq<Pair>)
    requires PairsWithin(pairings, |teams|)
    ensures realPs == Filter(pairings, RealPair(teams), true)
    ensures byePs == Filter(pairings, RealPair(teams), false)
  {
    realPs, byePs := [], [];
    for i := 0 to |pairings|
      invariant realPs == Filter(pairings[..i], RealPair(teams), true)
      invariant byePs == Filter(pairings[..i], RealPair(teams), false)
    {
      FilterStep(pairings, i, RealPair(teams), true);
      FilterStep(pairings, i, RealPair(teams), false);
      var teamA := teams[pairings[i].first];
      var teamB := teams[pairings[i].second];
      if teamA.name != ByeName && teamB.name != ByeName {
        realPs := realPs + [pairings[i]];
      } else {
        byePs := byePs + [pairings[i]];
      }
    }
    TakeAll(pairings);
  }

  /** The split loses and invents nothing: real and bye pairings together
      are a permutation of the round's pairings, and there are as many real
      ones as the round has pairings between two real teams. */
  lemma SeparationIsPartition(pairings: seq<Pair>, teams: seq<Team>)
    ensures multiset(Filter(pairings, RealPair(teams), true)) + multiset(Filter(pairings, RealPair(teams), false))
      == multiset(pairings)
    ensures |Filter(pairings, RealPair(teams), true)| == Count(pairings, RealPair(teams))
    ensures Count(Filter(pairings, RealPair(teams), true), RealPair(teams)) == Count(pairings, RealPair(teams))
    ensures Count(Filter(pairings, RealPair(teams), false), RealPair(teams)) == 0
  {
    var q := RealPair(teams);
    FilterPartition(pairings, q);
    FilterLength(pairings, q);
    FilterMembers(pairings, q, true);
    FilterMembers(pairings, q, false);
    CountAll(Filter(pairings, q, true), q);
    CountNone(Filter(pairings, q, false), q);
  }

  // ---------------------------------------------------------------------
  // createSessionMatches
  // ---------------------------------------------------------------------

  /** The match for one pairing.  The teams are swapped when only the first
      is the Bye placeholder, so the Bye always ends up as `team2`.  A bye
      match is on court 0; a real match gets court `courtIndex % c + 1`,
      where `courtIndex` counts the real matches of the session before it. */
  function PairMatch(teams: seq<Team>, p: Pair, courtIndex: nat, round: int, c: int): (m: Match)
    requires p.first < |teams| && p.second < |teams| && c >= 1
    ensures IsByeMatch(m) <==> !RealPair(teams)(p)
    ensures (m.team1 == teams[p.first] && m.team2 == teams[p.second]) ||
            (m.team1 == teams[p.second] && m.team2 == teams[p.first])
    ensures IsBye(m.team1) ==> IsBye(m.team2)
    ensures IsByeMatch(m) ==> m.courtNumber == 0
    ensures !IsByeMatch(m) ==> 1 <= m.courtNumber <= c && m.courtNumber == courtIndex % c + 1
    ensures m.round == round
    ensures m.team1Score == 0 && m.team2Score == 0 && !m.isCompleted
  {
    var teamA, teamB := teams[p.first], teams[p.second];
    var (team1, team2) := if IsBye(teamA) && !IsBye(teamB) then (teamB, teamA) else (teamA, teamB);
    var court := if IsBye(team1) || IsBye(team2) then 0 else courtIndex % c + 1;
    Match(team1, team2, 0, 0, court, round, false)
  }

  /** The matches of one session, all in round `round`, in the order of
      its pairings. */
  function SessionMatches(ps: seq<Pair>, teams: seq<Team>, round: int, c: int): (ms: seq<Match>)
    requires PairsWithin(ps, |teams|) && c >= 1
    ensures |ms| == |ps|
  {
    if ps == [] then []
    else
      var init := ps[..|ps| - 1];
      SessionMatches(init, teams, round, c) + [PairMatch(teams, ps[|ps| - 1], Count(init, RealPair(teams)), round, c)]
  }

  /** Match `i` of a session is built from pairing `i`, with the number of
      real pairings before it as its court index. */
  /** One more pairing adds its match, numbered by the real pairings before it. */
  lemma SessionMatchesStep(ps: seq<Pair>, teams: seq<Team>, round: int, c: int, i: nat)
    requires PairsWithin(ps, |teams|) && c >= 1 && i < |ps|
    ensures PairsWithin(ps[..i], |teams|) && PairsWithin(ps[..i + 1], |teams|)
    ensures SessionMatches(ps[..i + 1], teams, round, c) ==
      SessionMatches(ps[..i], teams, round, c) + [PairMatch(teams, ps[i], Count(ps[..i], RealPair(teams)), round, c)]
  {
    var upTo := ps[..i + 1];
    assert upTo[..|upTo| - 1] == ps[..i];
  }

  lemma {:induction false} SessionMatchAt(ps: seq<Pair>, teams: seq<Team>, round: int, c: int, i: nat)
    requires PairsWithin(ps, |teams|) && c >= 1 && i < |ps|
    ensures SessionMatches(ps, teams, round, c)[i] == PairMatch(teams, ps[i], Count(ps[..i], RealPair(teams)), round, c)
  {
    var init := ps[..|ps| - 1];
    if i < |ps| - 1 {
      SessionMatchAt(init, teams, round, c, i);
      assert init[..i] == ps[..i];
    }
  }

  /** createSessionMatches */
  method CreateSessionMatches(sessionPairings: seq<Pair>, teams: seq<Team>, round: int, availableCourts: int)
    returns (matches: seq<Match>)
    requires PairsWithin(sessionPairings, |teams|) && availableCourts >= 1
    ensures matches == SessionMatches(sessionPairings, teams, round, availableCourts)
  {
    matches := [];
    var courtIndexForRealMatches := 0;
    for i := 0 to |sessionPairings|
      invariant courtIndexForRealMatches == Count(sessionPairings[..i], RealPair(teams))
      invariant matches == SessionMatches(sessionPairings[..i], teams, round, availableCourts)
    {
      var teamA := teams[sessionPairings[i].first];
      var teamB := teams[sessionPairings[i].second];
      if teamA.name == ByeName && teamB.name != ByeName {
        teamA, teamB := teamB, teamA;
      }
      var isByeMatch := teamA.name == ByeName || teamB.name == ByeName;
      var courtNumber := if isByeMatch then 0 else (courtIndexForRealMatches % availableCourts) + 1;
      var m := Match(teamA, teamB, 0, 0, courtNumber, round, false);
      assert m == PairMatch(teams, sessionPairings[i], courtIndexForRealMatches, round, availableCourts);
      CountStep(sessionPairings, i, RealPair(teams));
      SessionMatchesStep(sessionPairings, teams, round, availableCourts, i);
      if !isByeMatch {
        courtIndexForRealMatches := courtIndexForRealMatches + 1;
      }
      matches := matches + [m];
    }
    TakeAll(sessionPairings);
  }


  /** Counting over a prefix never exceeds counting over the whole. */
  lemma CountPrefixAtMost<T>(s: seq<T>, i: nat, p: T -> bool)
    requires i <= |s|
    ensures Count(s[..i], p) <= Count(s, p)
  {
    CountAppend(s[..i], s[i..], p);
    assert s[..i] + s[i..] == s;
  }

  /** A session with at most `c` real pairings books each court at most
      once: its real matches get courts `1, 2, ...` in order. */
  lemma SessionCourts(ps: seq<Pair>, teams: seq<Team>, round: int, c: int)
    requires PairsWithin(ps, |teams|) && c >= 1 && Count(ps, RealPair(teams)) <= c
    ensures CourtsIncrease(SessionMatches(ps, teams, round, c))
  {
    var ms := SessionMatches(ps, teams, round, c);
    var q := RealPair(teams);
    forall i | 0 <= i < |ms| && IsRealMatch(ms[i])
      ensures ms[i].courtNumber == Count(ps[..i], q) + 1
    {
      SessionMatchAt(ps, teams, round, c, i);
      CountPrefixGrows(ps, i, |ps|, q);
      TakeAll(ps);
      ModSmall(Count(ps[..i], q), c);
    }
    forall i, j | 0 <= i < j < |ms| && IsRealMatch(ms[i]) && IsRealMatch(ms[j])
      ensures ms[i].courtNumber < ms[j].courtNumber
    {
      SessionMatchAt(ps, teams, round, c, i);
      CountPrefixGrows(ps, i, j, q);
    }
  }

  /** Every match of the list has the same round. */
  predicate AllInRound(ms: seq<Match>, round: int)
  {
    forall i :: 0 <= i < |ms| ==> ms[i].round == round
  }

  /** Courts: 0 for a bye match, `1..c` for a real one. */
  predicate CourtsValid(ms: seq<Match>, c: int)
  {
    forall i :: 0 <= i < |ms| ==>
      (IsByeMatch(ms[i]) ==> ms[i].courtNumber == 0) &&
      (IsRealMatch(ms[i]) ==> 1 <= ms[i].courtNumber <= c)
  }

  /** Real matches of the same round are on strictly increasing courts, so
      no court hosts two matches of one round. */
  predicate CourtsIncrease(ms: seq<Match>)
  {
    forall i, j :: 0 <= i < j < |ms| && IsRealMatch(ms[i]) && IsRealMatch(ms[j]) && ms[i].round == ms[j].round ==>
      ms[i].courtNumber < ms[j].courtNumber
  }

  /** Every match is unplayed: no score and not completed. */
  predicate Unplayed(ms: seq<Match>)
  {
    forall i :: 0 <= i < |ms| ==> ms[i].team1Score == 0 && ms[i].team2Score == 0 && !ms[i].isCompleted
  }

  /** The Bye placeholder never plays as `team1` against a real team. */
  predicate ByeSecond(ms: seq<Match>)
  {
    forall i :: 0 <= i < |ms| ==> IsBye(ms[i].team1) ==> IsBye(ms[i].team2)
  }

  lemma SessionShape(ps: seq<Pair>, teams: seq<Team>, round: int, c: int)
    requires PairsWithin(ps, |teams|) && c >= 1
    ensures AllInRound(SessionMatches(ps, teams, round, c), round)
    ensures CourtsValid(SessionMatches(ps, teams, round, c), c)
    ensures Unplayed(SessionMatches(ps, teams, round, c))
    ensures ByeSecond(SessionMatches(ps, teams, round, c))
  {
    var ms := SessionMatches(ps, teams, round, c);
    forall i | 0 <= i < |ms|
      ensures ms[i] == PairMatch(teams, ps[i], Count(ps[..i], RealPair(teams)), round, c)
    {
      SessionMatchAt(ps, teams, round, c, i);
    }
  }

  /** A match predicate that, on matches built from pairings, agrees with
      a pairing predicate. */
  ghost predicate Reflects(teams: seq<Team>, c: int, P: Match -> bool, Q: Pair -> bool)
    requires c >= 1
  {
    forall p: Pair, courtIndex: nat, round: int
      {:trigger PairMatch(teams, p, courtIndex, round, c)}
      :: p.first < |teams| && p.second < |teams| ==>
         P(PairMatch(teams, p, courtIndex, round, c)) == Q(p)
  }

  lemma SessionCount(ps: seq<Pair>, teams: seq<Team>, round: int, c: int, P: Match -> bool, Q: Pair -> bool)
    requires PairsWithin(ps, |teams|) && c >= 1 && Reflects(teams, c, P, Q)
    ensures Count(SessionMatches(ps, teams, round, c), P) == Count(ps, Q)
  {
    var ms := SessionMatches(ps, teams, round, c);
    forall i | 0 <= i < |ms|
      ensures P(ms[i]) == Q(ps[i])
    {
      SessionMatchAt(ps, teams, round, c, i);
    }
    CountCorresponding(ms, ps, P, Q);
  }

  // ---------------------------------------------------------------------
  // processRound
  // ---------------------------------------------------------------------

  /** Where session `s` starts in the real pairings: `s * c`. */
  function SessionStart(s: nat, c: nat): nat
  {
    if s == 0 then 0 else SessionStart(s - 1, c) + c
  }

  lemma {:induction false} SessionStartIsProduct(s: nat, c: nat)
    ensures SessionStart(s, c) == s * c
  {
    if s > 0 {
      SessionStartIsProduct(s - 1, c);
      assert (s - 1) * c + c == s * c;
    }
  }

  /** The number of sessions of at most `c` real pairings that the real
      pairings fill, none when there are none. */
  function SessionsNeeded(realCount: nat, c: nat): nat
    requires c >= 1
  {
    if realCount == 0 then 0
    else if realCount <= c then 1
    else 1 + SessionsNeeded(realCount - c, c)
  }

  /** It is the source's `ceil(real / c)`, written `(real + c - 1) / c`. */
  lemma {:induction false} SessionsNeededIsCeiling(realCount: nat, c: nat)
    requires c >= 1
    ensures SessionsNeeded(realCount, c) == if realCount == 0 then 0 else (realCount + c - 1) / c
  {
    if realCount > c {
      SessionsNeededIsCeiling(realCount - c, c);
      var q, m := (realCount - 1) / c, (realCount - 1) % c;
      assert realCount - c + c - 1 == realCount - 1;
      assert realCount + c - 1 == (q + 1) * c + m;
      ModUnique(realCount + c - 1, c, q + 1, m);
    } else if realCount > 0 {
      ModUnique(realCount + c - 1, c, 1, realCount - 1);
    }
  }

  lemma {:induction false} SessionStartAtLeast(s: nat, c: nat)
    requires s >= 1
    ensures SessionStart(s, c) >= c
  {
  }

  /** Session `s` starts inside the real pairings exactly when `s` is below
      the number of sessions they need, and those sessions hold them all. */
  lemma {:induction false} SessionsNeededBounds(realCount: nat, c: nat, s: nat)
    requires c >= 1
    ensures s < SessionsNeeded(realCount, c) <==> SessionStart(s, c) < realCount
    ensures SessionStart(SessionsNeeded(realCount, c), c) >= realCount
    decreases realCount
  {
    if s >= 1 {
      SessionStartAtLeast(s, c);
    }
    if realCount > c && s >= 1 {
      SessionsNeededBounds(realCount - c, c, s - 1);
    } else if realCount > c {
      SessionsNeededBounds(realCount - c, c, 0);
    }
  }

  /** `max(sessionCount, byePairings.isEmpty ? 0 : 1)` */
  function ActualSessions(realCount: nat, byeCount: nat, c: nat): nat
    requires c >= 1
  {
    var needed := SessionsNeeded(realCount, c);
    if needed >= (if byeCount == 0 then 0 else 1) then needed else 1
  }

  lemma SessionStartWithin(realCount: nat, byeCount: nat, c: nat, s: nat)
    requires c >= 1 && s < ActualSessions(realCount, byeCount, c)
    ensures SessionStart(s, c) <= realCount
  {
    SessionsNeededBounds(realCount, c, s);
  }

  /** The real pairings of session `s`: up to `c` of them, starting at
      `s * c`. */
  function SessionSlice(realPs: seq<Pair>, s: nat, c: nat): (slice: seq<Pair>)
    requires c >= 1 && SessionStart(s, c) <= |realPs|
    ensures |slice| == if SessionStart(s, c) + c <= |realPs| then c else |realPs| - SessionStart(s, c)
    ensures slice == realPs[SessionStart(s, c)..SessionStart(s, c) + |slice|]
  {
    SessionStartIsProduct(s, c);
    var startIndex := s * c;
    var endIndex := if startIndex + c <= |realPs| then startIndex + c else |realPs|;
    realPs[startIndex..endIndex]
  }

  /** The pairings of session `s`: the bye pairings (session 0 only), then
      its real pairings; none past the end of the real pairings. */
  function SessionPairings(realPs: seq<Pair>, byePs: seq<Pair>, c: nat, s: nat): seq<Pair>
    requires c >= 1
  {
    if SessionStart(s, c) <= |realPs| then (if s == 0 then byePs else []) + SessionSlice(realPs, s, c) else []
  }

  lemma SessionPairingsWithin(realPs: seq<Pair>, byePs: seq<Pair>, c: nat, s: nat, n: nat)
    requires c >= 1 && SessionStart(s, c) <= |realPs| && PairsWithin(realPs, n) && PairsWithin(byePs, n)
    ensures PairsWithin(SessionPairings(realPs, byePs, c, s), n)
  {
    var slice := SessionSlice(realPs, s, c);
    var start := SessionStart(s, c);
    WithinSlice(realPs, start, start + |slice|, n);
    WithinConcat(if s == 0 then byePs else [], slice, n);
  }

  lemma WithinSlice(ps: seq<Pair>, i: nat, j: nat, n: nat)
    requires i <= j <= |ps| && PairsWithin(ps, n)
    ensures PairsWithin(ps[i..j], n)
  {
    forall k | 0 <= k < j - i
      ensures ps[i..j][k].first < n && ps[i..j][k].second < n
    {
      assert ps[i..j][k] == ps[i + k];
    }
  }

  lemma WithinConcat(a: seq<Pair>, b: seq<Pair>, n: nat)
    requires PairsWithin(a, n) && PairsWithin(b, n)
    ensures PairsWithin(a + b, n)
  {
    forall k | 0 <= k < |a + b|
      ensures (a + b)[k].first < n && (a + b)[k].second < n
    {
      if k >= |a| {
        assert (a + b)[k] == b[k - |a|];
      }
    }
  }

  /** The pairings of every session of a round, session by session. */
  function SessionList(realPs: seq<Pair>, byePs: seq<Pair>, c: nat): (sps: seq<seq<Pair>>)
    requires c >= 1
    ensures |sps| == ActualSessions(|realPs|, |byePs|, c)
  {
    seq(ActualSessions(|realPs|, |byePs|, c), s requires s >= 0 => SessionPairings(realPs, byePs, c, s))
  }

  /** The pairings of a list of sessions, one after the other. */
  function Flatten(sps: seq<seq<Pair>>): seq<Pair>
  {
    if sps == [] then [] else Flatten(sps[..|sps| - 1]) + sps[|sps| - 1]
  }

  predicate AllWithin(sps: seq<seq<Pair>>, n: nat)
  {
    forall s :: 0 <= s < |sps| ==> PairsWithin(sps[s], n)
  }

  /** The matches of a list of sessions; session `s` plays round `round0 + s`. */
  function Sessions(sps: seq<seq<Pair>>, teams: seq<Team>, c: nat, round0: int): (ms: seq<Match>)
    requires c >= 1 && AllWithin(sps, |teams|)
    ensures |ms| == |Flatten(sps)|
  {
    if sps == [] then []
    else
      Sessions(sps[..|sps| - 1], teams, c, round0) + SessionMatches(sps[|sps| - 1], teams, round0 + |sps| - 1, c)
  }

  lemma SessionListWithin(realPs: seq<Pair>, byePs: seq<Pair>, c: nat, n: nat)
    requires c >= 1 && PairsWithin(realPs, n) && PairsWithin(byePs, n)
    ensures AllWithin(SessionList(realPs, byePs, c), n)
  {
    var sps := SessionList(realPs, byePs, c);
    forall s | 0 <= s < |sps|
      ensures PairsWithin(sps[s], n)
    {
      SessionStartWithin(|realPs|, |byePs|, c, s);
      SessionPairingsWithin(realPs, byePs, c, s, n);
    }
  }

  datatype RoundResult = RoundResult(matches: seq<Match>, nextRound: int)

  /** Filtering keeps the pairings within the roster. */
  lemma {:induction false} FilterWithin(ps: seq<Pair>, q: Pair -> bool, keep: bool, n: nat)
    requires PairsWithin(ps, n)
    ensures PairsWithin(Filter(ps, q, keep), n)
  {
    if ps != [] {
      var init := ps[..|ps| - 1];
      FilterWithin(init, q, keep, n);
      WithinConcat(Filter(init, q, keep), if q(ps[|ps| - 1]) == keep then [ps[|ps| - 1]] else [], n);
    }
  }

  /** processRound, as a function of the round's pairings: the matches of
      all its sessions, and the round counter advanced by the number of
      sessions that hold real pairings. */
  function RoundMatches(pairings: seq<Pair>, teams: seq<Team>, c: nat, round0: int): (result: RoundResult)
    requires c >= 1 && PairsWithin(pairings, |teams|)
    ensures result.nextRound >= round0
  {
    var realPs := Filter(pairings, RealPair(teams), true);
    var byePs := Filter(pairings, RealPair(teams), false);
    FilterWithin(pairings, RealPair(teams), true, |teams|);
    FilterWithin(pairings, RealPair(teams), false, |teams|);
    SessionListWithin(realPs, byePs, c, |teams|);
    RoundResult(Sessions(SessionList(realPs, byePs, c), teams, c, round0), round0 + SessionsNeeded(|realPs|, c))
  }

  /** Session `s` of a round holds real pairings unless it is the only
      session of a round without any. */
  lemma SessionAt(realPs: seq<Pair>, byePs: seq<Pair>, c: nat, s: nat)
    requires c >= 1 && s < ActualSessions(|realPs|, |byePs|, c)
    ensures SessionStart(s, c) <= |realPs|
    ensures |SessionSlice(realPs, s, c)| != 0 <==> s < SessionsNeeded(|realPs|, c)
    ensures s >= SessionsNeeded(|realPs|, c) ==> s == 0
  {
    SessionStartWithin(|realPs|, |byePs|, c, s);
    SessionsNeededBounds(|realPs|, c, s);
  }

  /** Session `k` of a round holds the pairings processRound gives it. */
  lemma SessionListAt(realPs: seq<Pair>, byePs: seq<Pair>, c: nat, k: nat, sp: seq<Pair>)
    requires c >= 1 && k < ActualSessions(|realPs|, |byePs|, c) && SessionStart(k, c) <= |realPs|
    requires sp == (if k == 0 then byePs else []) + SessionSlice(realPs, k, c)
    ensures SessionList(realPs, byePs, c)[k] == sp
  {
  }

  /** Playing session `k` of a list, whose pairings are `sp`, in round
      `round0 + k` extends the matches `prev` of the sessions before it. */
  lemma SessionsStep(sps: seq<seq<Pair>>, teams: seq<Team>, c: nat, round0: int, k: nat,
                     prev: seq<Match>, sp: seq<Pair>, round: int)
    requires c >= 1 && AllWithin(sps, |teams|) && k < |sps|
    requires prev == Sessions(sps[..k], teams, c, round0) && sp == sps[k] && round == round0 + k
    ensures PairsWithin(sp, |teams|)
    ensures prev + SessionMatches(sp, teams, round, c) == Sessions(sps[..k + 1], teams, c, round0)
  {
    var upTo := sps[..k + 1];
    assert upTo[..|upTo| - 1] == sps[..k];
    assert round0 + |upTo| - 1 == round;
  }

  /** One pass of the session loop of processRound: the bye pairings (in
      the first session only) and this session's slice of the real
      pairings become matches of the current round, and the round moves on
      only when the session held real pairings. */
  method PlaySession(realPs: seq<Pair>, byePs: seq<Pair>, teams: seq<Team>, c: nat, roundCounter: int,
                     session: nat, matches: seq<Match>, currentRound: int)
    returns (matches': seq<Match>, currentRound': int)
    requires c >= 1 && PairsWithin(realPs, |teams|) && PairsWithin(byePs, |teams|)
    requires session < ActualSessions(|realPs|, |byePs|, c)
    requires AllWithin(SessionList(realPs, byePs, c), |teams|)
    requires matches == Sessions(SessionList(realPs, byePs, c)[..session], teams, c, roundCounter)
    requires currentRound == roundCounter + session
    ensures matches' == Sessions(SessionList(realPs, byePs, c)[..session + 1], teams, c, roundCounter)
    ensures currentRound' == if session < SessionsNeeded(|realPs|, c) then currentRound + 1 else currentRound
  {
    SessionAt(realPs, byePs, c, session);
    var sessionRealPairings := SessionSlice(realPs, session, c);
    var sessionPairings := if session == 0 then byePs else [];
    sessionPairings := sessionPairings + sessionRealPairings;
    SessionListAt(realPs, byePs, c, session, sessionPairings);
    SessionsStep(SessionList(realPs, byePs, c), teams, c, roundCounter, session, matches, sessionPairings, currentRound);
    var sessionMatches := CreateSessionMatches(sessionPairings, teams, currentRound, c);
    matches' := matches + sessionMatches;
    currentRound' := currentRound;
    if |sessionRealPairings| != 0 {
      currentRound' := currentRound + 1;
    }
  }

  /** processRound */
  method ProcessRound(pairings: seq<Pair>, teams: seq<Team>, availableCourts: nat, roundCounter: int)
    returns (result: RoundResult)
    requires availableCourts >= 1 && PairsWithin(pairings, |teams|)
    ensures result == RoundMatches(pairings, teams, availableCourts, roundCounter)
  {
    var realPs, byePs := SeparatePairings(pairings, teams);
    FilterWithin(pairings, RealPair(teams), true, |teams|);
    FilterWithin(pairings, RealPair(teams), false, |teams|);
    result := PlaySessions(realPs, byePs, teams, availableCourts, roundCounter);
  }

  /** The session loop of processRound over the separated pairings: as
      many sessions as the real pairings need, at least one when there are
      bye pairings; the round counter moves once per session with real
      pairings. */
  method PlaySessions(realPs: seq<Pair>, byePs: seq<Pair>, teams: seq<Team>, c: nat, roundCounter: int)
    returns (result: RoundResult)
    requires c >= 1 && PairsWithin(realPs, |teams|) && PairsWithin(byePs, |teams|)
    ensures AllWithin(SessionList(realPs, byePs, c), |teams|)
    ensures result == RoundResult(Sessions(SessionList(realPs, byePs, c), teams, c, roundCounter),
                                  roundCounter + SessionsNeeded(|realPs|, c))
  {
    SessionListWithin(realPs, byePs, c, |teams|);
    var matches: seq<Match> := [];
    var currentRound := roundCounter;
    var sessionCount := if |realPs| == 0 then 0 else (|realPs| + c - 1) / c;
    SessionsNeededIsCeiling(|realPs|, c);
    assert sessionCount == SessionsNeeded(|realPs|, c);
    var actualSessions := if sessionCount >= (if |byePs| == 0 then 0 else 1) then sessionCount else 1;
    for session := 0 to actualSessions
      invariant matches == Sessions(SessionList(realPs, byePs, c)[..session], teams, c, roundCounter)
      invariant session <= sessionCount ==> currentRound == roundCounter + session
      invariant session > sessionCount ==> currentRound == roundCounter + sessionCount
    {
      SessionAt(realPs, byePs, c, session);
      matches, currentRound := PlaySession(realPs, byePs, teams, c, roundCounter, session, matches, currentRound);
    }
    SessionListWhole(realPs, byePs, c, actualSessions);
    result := RoundResult(matches, currentRound);
  }

  lemma SessionListWhole(realPs: seq<Pair>, byePs: seq<Pair>, c: nat, k: nat)
    requires c >= 1 && k == |SessionList(realPs, byePs, c)|
    ensures SessionList(realPs, byePs, c)[..k] == SessionList(realPs, byePs, c)
  {
  }

  // ---------------------------------------------------------------------
  // What a round's sessions hold
  // ---------------------------------------------------------------------

  /** A first session holding `pre` and the real pairings before `end`. */
  lemma FlattenFirst(sps: seq<seq<Pair>>, pre: seq<Pair>, realPs: seq<Pair>, end: nat)
    requires 1 <= |sps| && end <= |realPs| && sps[0] == pre + realPs[0..end]
    ensures Flatten(sps[..1]) == pre + realPs[..end]
  {
    assert sps[..1][..0] == [];
  }

  /** Adding one session, holding the real pairings `before..end`, to
      sessions that hold `pre` and the real pairings before `before`. */
  lemma FlattenGrows(sps: seq<seq<Pair>>, k: nat, pre: seq<Pair>, realPs: seq<Pair>, before: nat, end: nat)
    requires k < |sps| && before <= end <= |realPs|
    requires Flatten(sps[..k]) == pre + realPs[..before] && sps[k] == realPs[before..end]
    ensures Flatten(sps[..k + 1]) == pre + realPs[..end]
  {
    assert sps[..k + 1][..k] == sps[..k];
    assert realPs[..before] + realPs[before..end] == realPs[..end];
  }

  /** The bye pairings and the real pairings of the first `k` sessions, or all of them. */
  function PrefixPairings(realPs: seq<Pair>, byePs: seq<Pair>, c: nat, k: nat): seq<Pair>
  {
    byePs + realPs[..Covered(|realPs|, c, k)]
  }

  /** How many real pairings the first `k` sessions hold. */
  function Covered(realCount: nat, c: nat, k: nat): nat
  {
    if SessionStart(k, c) <= realCount then SessionStart(k, c) else realCount
  }

  /** The first `k` sessions hold the bye pairings and the first `k * c`
      real pairings, or all of them. */
  lemma {:induction false} SessionListPrefix(realPs: seq<Pair>, byePs: seq<Pair>, c: nat, k: nat)
    requires c >= 1 && 1 <= k <= ActualSessions(|realPs|, |byePs|, c)
    ensures Flatten(SessionList(realPs, byePs, c)[..k]) == PrefixPairings(realPs, byePs, c, k)
  {
    if k > 1 {
      SessionListPrefix(realPs, byePs, c, k - 1);
    }
    SessionListGrows(realPs, byePs, c, k);
  }

  lemma SessionListGrows(realPs: seq<Pair>, byePs: seq<Pair>, c: nat, k: nat)
    requires c >= 1 && 1 <= k <= ActualSessions(|realPs|, |byePs|, c)
    requires k > 1 ==> Flatten(SessionList(realPs, byePs, c)[..k - 1]) == PrefixPairings(realPs, byePs, c, k - 1)
    ensures Flatten(SessionList(realPs, byePs, c)[..k]) == PrefixPairings(realPs, byePs, c, k)
  {
    SessionStartWithin(|realPs|, |byePs|, c, k - 1);
    var slice := SessionSlice(realPs, k - 1, c);
    SessionListAt(realPs, byePs, c, k - 1, (if k == 1 then byePs else []) + slice);
    if k == 1 {
      FirstSessionPrefix(realPs, byePs, c);
    } else {
      NextSessionPrefix(realPs, byePs, c, k);
    }
  }

  lemma FirstSessionPrefix(realPs: seq<Pair>, byePs: seq<Pair>, c: nat)
    requires c >= 1 && 1 <= ActualSessions(|realPs|, |byePs|, c)
    requires SessionList(realPs, byePs, c)[0] == byePs + SessionSlice(realPs, 0, c)
    ensures Flatten(SessionList(realPs, byePs, c)[..1]) == PrefixPairings(realPs, byePs, c, 1)
  {
    var end := |SessionSlice(realPs, 0, c)|;
    assert Covered(|realPs|, c, 1) == end;
    FlattenFirst(SessionList(realPs, byePs, c), byePs, realPs, end);
  }

  lemma NextSessionPrefix(realPs: seq<Pair>, byePs: seq<Pair>, c: nat, k: nat)
    requires c >= 1 && 1 < k <= ActualSessions(|realPs|, |byePs|, c) && SessionStart(k - 1, c) <= |realPs|
    requires Flatten(SessionList(realPs, byePs, c)[..k - 1]) == PrefixPairings(realPs, byePs, c, k - 1)
    requires SessionList(realPs, byePs, c)[k - 1] == [] + SessionSlice(realPs, k - 1, c)
    ensures Flatten(SessionList(realPs, byePs, c)[..k]) == PrefixPairings(realPs, byePs, c, k)
  {
    var before := SessionStart(k - 1, c);
    var end := before + |SessionSlice(realPs, k - 1, c)|;
    assert Covered(|realPs|, c, k - 1) == before && Covered(|realPs|, c, k) == end;
    FlattenGrows(SessionList(realPs, byePs, c), k - 1, byePs, realPs, before, end);
  }

  /** The sessions of a round hold its bye pairings, then its real
      pairings, each exactly once and in order. */
  lemma SessionListFlattens(realPs: seq<Pair>, byePs: seq<Pair>, c: nat)
    requires c >= 1
    ensures Flatten(SessionList(realPs, byePs, c)) == byePs + realPs
  {
    var k := ActualSessions(|realPs|, |byePs|, c);
    SessionsNeededBounds(|realPs|, c, 0);
    if k == 0 {
      assert |realPs| == 0 && |byePs| == 0;
    } else {
      SessionListPrefix(realPs, byePs, c, k);
      assert SessionList(realPs, byePs, c)[..k] == SessionList(realPs, byePs, c);
      SessionsNeededBounds(|realPs|, c, k);
      assert Covered(|realPs|, c, k) == |realPs|;
      TakeAll(realPs);
    }
  }

  /** Counting the matches of a list of sessions by a predicate that
      reflects a pairing predicate counts their pairings. */
  lemma {:induction false} SessionsCount(sps: seq<seq<Pair>>, teams: seq<Team>, c: nat, round0: int, P: Match -> bool, Q: Pair -> bool)
    requires c >= 1 && AllWithin(sps, |teams|) && Reflects(teams, c, P, Q)
    ensures Count(Sessions(sps, teams, c, round0), P) == Count(Flatten(sps), Q)
  {
    if sps != [] {
      var init, last := sps[..|sps| - 1], sps[|sps| - 1];
      SessionsCount(init, teams, c, round0, P, Q);
      SessionCount(last, teams, round0 + |sps| - 1, c, P, Q);
      SessionsCountStep(sps, teams, c, round0, P, Q);
    }
  }

  /** The step of SessionsCount: the counts of the earlier sessions and of
      the last one add up. */
  lemma SessionsCountStep(sps: seq<seq<Pair>>, teams: seq<Team>, c: nat, round0: int, P: Match -> bool, Q: Pair -> bool)
    requires c >= 1 && AllWithin(sps, |teams|) && sps != []
    requires Count(Sessions(sps[..|sps| - 1], teams, c, round0), P) == Count(Flatten(sps[..|sps| - 1]), Q)
    requires PairsWithin(sps[|sps| - 1], |teams|)
    requires Count(SessionMatches(sps[|sps| - 1], teams, round0 + |sps| - 1, c), P) == Count(sps[|sps| - 1], Q)
    ensures Count(Sessions(sps, teams, c, round0), P) == Count(Flatten(sps), Q)
  {
    var init, last := sps[..|sps| - 1], sps[|sps| - 1];
    CountAppend(Sessions(init, teams, c, round0), SessionMatches(last, teams, round0 + |sps| - 1, c), P);
    CountAppend(Flatten(init), last, Q);
  }

  /** Counting matches of a round by a predicate that reflects a pairing
      predicate counts the round's pairings: the sessions drop, duplicate
      and invent no pairing. */
  lemma RoundCount(pairings: seq<Pair>, teams: seq<Team>, c: nat, round0: int, P: Match -> bool, Q: Pair -> bool)
    requires c >= 1 && PairsWithin(pairings, |teams|) && Reflects(teams, c, P, Q)
    ensures Count(RoundMatches(pairings, teams, c, round0).matches, P) == Count(pairings, Q)
  {
    var realPs := Filter(pairings, RealPair(teams), true);
    var byePs := Filter(pairings, RealPair(teams), false);
    FilterWithin(pairings, RealPair(teams), true, |teams|);
    FilterWithin(pairings, RealPair(teams), false, |teams|);
    SessionListWithin(realPs, byePs, c, |teams|);
    SessionsCount(SessionList(realPs, byePs, c), teams, c, round0, P, Q);
    SessionListFlattens(realPs, byePs, c);
    CountAppend(byePs, realPs, Q);
    CountSplit(pairings, RealPair(teams), Q);
  }
}
