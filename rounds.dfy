/** Round numbering of the schedule (Tournament.swift, lines 321-347 and
    364-383): rounds are numbered from 1 without gaps, every round number
    below the final counter holds between one and `availableCourts` real
    matches, and with a single court every real match has a round of its
    own. */
module Rounds {
  import opened Counting
  import opened Model
  import opened Circle
  import opened Sessions
  import opened Schedule
  import opened Fairness

  /** The match is a real match of round `r`. */
  function RealIn(r: int): Match -> bool
  {
    (m: Match) => IsRealMatch(m) && m.round == r
  }

  // ---------------------------------------------------------------------
  // One session, then the sessions of a round
  // ---------------------------------------------------------------------

  /** Matches all in round `round` hold real matches of round `r` only
      when `r` is that round, and then all their real matches. */
  lemma InRoundCount(ms: seq<Match>, round: int, r: int)
    requires AllInRound(ms, round)
    ensures Count(ms, RealIn(r)) == if r == round then Count(ms, IsRealMatch) else 0
  {
    if r == round {
      CountCorresponding(ms, ms, RealIn(r), IsRealMatch);
    } else {
      CountNone(ms, RealIn(r));
    }
  }

  /** The match lists `L`, one after the other. */
  function Concat(L: seq<seq<Match>>): seq<Match>
  {
    if L == [] then [] else Concat(L[..|L| - 1]) + L[|L| - 1]
  }

  /** Match lists whose list `s` is all in round `round0 + s` hold the real
      matches of round `r` in list `r - round0` alone. */
  lemma {:induction false} StagedCount(L: seq<seq<Match>>, round0: int, r: int)
    requires forall s :: 0 <= s < |L| ==> AllInRound(L[s], round0 + s)
    ensures Count(Concat(L), RealIn(r)) == if round0 <= r < round0 + |L| then Count(L[r - round0], IsRealMatch) else 0
  {
    if L != [] {
      var init, last := L[..|L| - 1], L[|L| - 1];
      StagedCount(init, round0, r);
      CountAppend(Concat(init), last, RealIn(r));
      InRoundCount(last, round0 + |L| - 1, r);
      if round0 <= r < round0 + |L| - 1 {
        assert L[r - round0] == init[r - round0];
      }
    }
  }

  /** The matches of each session of a list numbered from `round0`. */
  function SessionsByRound(sps: seq<seq<Pair>>, teams: seq<Team>, c: nat, round0: int): (L: seq<seq<Match>>)
    requires c >= 1 && AllWithin(sps, |teams|)
    ensures |L| == |sps|
  {
    if sps == [] then []
    else SessionsByRound(sps[..|sps| - 1], teams, c, round0) + [SessionMatches(sps[|sps| - 1], teams, round0 + |sps| - 1, c)]
  }

  /** The matches of a list of sessions are those of its sessions, one
      after the other. */
  lemma {:induction false} SessionsConcat(sps: seq<seq<Pair>>, teams: seq<Team>, c: nat, round0: int)
    requires c >= 1 && AllWithin(sps, |teams|)
    ensures Sessions.Sessions(sps, teams, c, round0) == Concat(SessionsByRound(sps, teams, c, round0))
  {
    if sps != [] {
      var init := sps[..|sps| - 1];
      SessionsConcat(init, teams, c, round0);
      var L := SessionsByRound(sps, teams, c, round0);
      assert L[..|sps| - 1] == SessionsByRound(init, teams, c, round0);
    }
  }

  /** Session `s` of a list numbered from `round0` is all in round
      `round0 + s`. */
  lemma {:induction false} SessionsInRound(sps: seq<seq<Pair>>, teams: seq<Team>, c: nat, round0: int)
    requires c >= 1 && AllWithin(sps, |teams|)
    ensures forall s :: 0 <= s < |sps| ==> AllInRound(SessionsByRound(sps, teams, c, round0)[s], round0 + s)
  {
    if sps != [] {
      var init, last := sps[..|sps| - 1], sps[|sps| - 1];
      SessionsInRound(init, teams, c, round0);
      var L, Li := SessionsByRound(sps, teams, c, round0), SessionsByRound(init, teams, c, round0);
      SessionShape(last, teams, round0 + |sps| - 1, c);
      assert forall s :: 0 <= s < |init| ==> L[s] == Li[s];
    }
  }

  /** Session `s` of a list has one real match per real pairing. */
  lemma {:induction false} SessionsRealCount(sps: seq<seq<Pair>>, teams: seq<Team>, c: nat, round0: int)
    requires c >= 1 && AllWithin(sps, |teams|)
    ensures forall s :: 0 <= s < |sps| ==>
      Count(SessionsByRound(sps, teams, c, round0)[s], IsRealMatch) == Count(sps[s], RealPair(teams))
  {
    if sps != [] {
      var init, last := sps[..|sps| - 1], sps[|sps| - 1];
      SessionsRealCount(init, teams, c, round0);
      var L, Li := SessionsByRound(sps, teams, c, round0), SessionsByRound(init, teams, c, round0);
      RealReflects(teams, c);
      SessionCount(last, teams, round0 + |sps| - 1, c, IsRealMatch, RealPair(teams));
      assert forall s :: 0 <= s < |init| ==> L[s] == Li[s] && sps[s] == init[s];
    }
  }

  /** Session `s` of a list numbered from `round0` is round `round0 + s`:
      the real matches of round `r` are the real pairings of session
      `r - round0`. */
  lemma SessionsRounds(sps: seq<seq<Pair>>, teams: seq<Team>, c: nat, round0: int, r: int)
    requires c >= 1 && AllWithin(sps, |teams|)
    ensures Count(Sessions.Sessions(sps, teams, c, round0), RealIn(r)) ==
      if round0 <= r < round0 + |sps| then Count(sps[r - round0], RealPair(teams)) else 0
  {
    SessionsConcat(sps, teams, c, round0);
    SessionsInRound(sps, teams, c, round0);
    SessionsRealCount(sps, teams, c, round0);
    StagedCount(SessionsByRound(sps, teams, c, round0), round0, r);
  }

  /** Every match of a list of sessions numbered from `round0` has a round
      in `round0 .. round0 + |sps| - 1`. */
  lemma {:induction false} SessionsRoundRange(sps: seq<seq<Pair>>, teams: seq<Team>, c: nat, round0: int)
    requires c >= 1 && AllWithin(sps, |teams|)
    ensures forall i :: 0 <= i < |Sessions.Sessions(sps, teams, c, round0)| ==>
      round0 <= Sessions.Sessions(sps, teams, c, round0)[i].round < round0 + |sps|
  {
    if sps != [] {
      var init, last := sps[..|sps| - 1], sps[|sps| - 1];
      SessionsRoundRange(init, teams, c, round0);
      SessionShape(last, teams, round0 + |sps| - 1, c);
      RangeAppend(Sessions.Sessions(init, teams, c, round0), SessionMatches(last, teams, round0 + |sps| - 1, c), round0, round0 + |sps| - 1);
    }
  }

  /** Joining two lists of matches whose rounds lie below `hi` and at `hi`. */
  lemma RangeAppend(before: seq<Match>, now: seq<Match>, lo: int, hi: int)
    requires forall i :: 0 <= i < |before| ==> lo <= before[i].round < hi
    requires AllInRound(now, hi) && lo <= hi
    ensures forall i :: 0 <= i < |before + now| ==> lo <= (before + now)[i].round < hi + 1
  {
    forall i | 0 <= i < |before + now|
      ensures lo <= (before + now)[i].round < hi + 1
    {
      if i < |before| {
        assert (before + now)[i] == before[i];
      } else {
        assert (before + now)[i] == now[i - |before|];
      }
    }
  }

  /** Session `s` of a round holds between one and `c` real pairings when
      it is one of the sessions the real pairings need, and none otherwise
      (the lone session of a round with nothing but a bye). */
  lemma SessionRealCount(realPs: seq<Pair>, byePs: seq<Pair>, teams: seq<Team>, c: nat, s: nat)
    requires c >= 1 && s < ActualSessions(|realPs|, |byePs|, c)
    requires forall i :: 0 <= i < |realPs| ==> RealPair(teams)(realPs[i])
    requires forall i :: 0 <= i < |byePs| ==> !RealPair(teams)(byePs[i])
    ensures s < SessionsNeeded(|realPs|, c) ==> 1 <= Count(SessionList(realPs, byePs, c)[s], RealPair(teams)) <= c
    ensures s >= SessionsNeeded(|realPs|, c) ==> Count(SessionList(realPs, byePs, c)[s], RealPair(teams)) == 0
  {
    SessionAt(realPs, byePs, c, s);
    var slice := SessionSlice(realPs, s, c);
    var start := SessionStart(s, c);
    assert |slice| <= c;
    var front: seq<Pair> := if s == 0 then byePs else [];
    SliceAllReal(realPs, start, start + |slice|, teams);
    var sp := SessionList(realPs, byePs, c)[s];
    assert sp == front + slice;
    FrontSliceCount(front, slice, teams);
  }

  /** Bye pairings followed by real ones: the count is the real ones. */
  lemma FrontSliceCount(front: seq<Pair>, slice: seq<Pair>, teams: seq<Team>)
    requires forall i :: 0 <= i < |front| ==> !RealPair(teams)(front[i])
    requires Count(slice, RealPair(teams)) == |slice|
    ensures Count(front + slice, RealPair(teams)) == |slice|
  {
    CountAppend(front, slice, RealPair(teams));
    CountNone(front, RealPair(teams));
  }

  /** A slice of pairings that are all real holds only real pairings. */
  lemma SliceAllReal(ps: seq<Pair>, lo: nat, hi: nat, teams: seq<Team>)
    requires lo <= hi <= |ps|
    requires forall i :: 0 <= i < |ps| ==> RealPair(teams)(ps[i])
    ensures Count(ps[lo..hi], RealPair(teams)) == hi - lo
  {
    forall j | 0 <= j < hi - lo
      ensures RealPair(teams)(ps[lo..hi][j])
    {
      assert ps[lo..hi][j] == ps[lo + j];
    }
    CountAll(ps[lo..hi], RealPair(teams));
  }

  // ---------------------------------------------------------------------
  // One theoretical round
  // ---------------------------------------------------------------------

  /** processRound numbers its sessions from `roundCounter` on: each round
      number up to the returned counter holds between one and `c` real
      matches, and no other holds any. */
  lemma RoundRounds(pairings: seq<Pair>, teams: seq<Team>, c: nat, round0: int, r: int)
    requires c >= 1 && PairsWithin(pairings, |teams|)
    ensures NumberedAt(RoundMatches(pairings, teams, c, round0).matches, round0, RoundMatches(pairings, teams, c, round0).nextRound, c, r)
  {
    var realPs := Filter(pairings, RealPair(teams), true);
    var byePs := Filter(pairings, RealPair(teams), false);
    FilterMembers(pairings, RealPair(teams), true);
    FilterMembers(pairings, RealPair(teams), false);
    FilterWithin(pairings, RealPair(teams), true, |teams|);
    FilterWithin(pairings, RealPair(teams), false, |teams|);
    SessionListWithin(realPs, byePs, c, |teams|);
    SeparatedRounds(realPs, byePs, teams, c, round0, r);
  }

  /** RoundRounds over the pairings once separated into real ones and byes. */
  lemma SeparatedRounds(realPs: seq<Pair>, byePs: seq<Pair>, teams: seq<Team>, c: nat, round0: int, r: int)
    requires c >= 1 && AllWithin(SessionList(realPs, byePs, c), |teams|)
    requires forall i :: 0 <= i < |realPs| ==> RealPair(teams)(realPs[i])
    requires forall i :: 0 <= i < |byePs| ==> !RealPair(teams)(byePs[i])
    ensures NumberedAt(Sessions.Sessions(SessionList(realPs, byePs, c), teams, c, round0),
      round0, round0 + SessionsNeeded(|realPs|, c), c, r)
  {
    var sps := SessionList(realPs, byePs, c);
    var needed := SessionsNeeded(|realPs|, c);
    forall s | 0 <= s < |sps|
      ensures s < needed ==> 1 <= Count(sps[s], RealPair(teams)) <= c
      ensures s >= needed ==> Count(sps[s], RealPair(teams)) == 0
    {
      SessionRealCount(realPs, byePs, teams, c, s);
    }
    SessionCountsRounds(sps, teams, c, round0, r, needed);
  }

  /** Sessions numbered from `round0`, the first `needed` of which hold
      between one and `c` real pairings and the others none, number their
      real matches from `round0` up to before `round0 + needed`. */
  lemma SessionCountsRounds(sps: seq<seq<Pair>>, teams: seq<Team>, c: nat, round0: int, r: int, needed: nat)
    requires c >= 1 && AllWithin(sps, |teams|) && needed <= |sps|
    requires forall s :: 0 <= s < |sps| ==>
      (s < needed ==> 1 <= Count(sps[s], RealPair(teams)) <= c) &&
      (s >= needed ==> Count(sps[s], RealPair(teams)) == 0)
    ensures NumberedAt(Sessions.Sessions(sps, teams, c, round0), round0, round0 + needed, c, r)
  {
    SessionsRounds(sps, teams, c, round0, r);
  }

  /** Every match of a round has a round number from `roundCounter` up to
      the returned counter, which never goes back. */
  lemma RoundRange(pairings: seq<Pair>, teams: seq<Team>, c: nat, round0: int)
    requires c >= 1 && PairsWithin(pairings, |teams|)
    ensures RoundMatches(pairings, teams, c, round0).nextRound >= round0
    ensures forall i :: 0 <= i < |RoundMatches(pairings, teams, c, round0).matches| ==>
      round0 <= RoundMatches(pairings, teams, c, round0).matches[i].round <= RoundMatches(pairings, teams, c, round0).nextRound
  {
    var realPs := Filter(pairings, RealPair(teams), true);
    var byePs := Filter(pairings, RealPair(teams), false);
    FilterWithin(pairings, RealPair(teams), true, |teams|);
    FilterWithin(pairings, RealPair(teams), false, |teams|);
    var sps := SessionList(realPs, byePs, c);
    SessionListWithin(realPs, byePs, c, |teams|);
    SessionsRoundRange(sps, teams, c, round0);
  }

  /** With one court, the counter moves by one per real pairing. */
  lemma OneCourtRound(pairings: seq<Pair>, teams: seq<Team>, round0: int)
    requires PairsWithin(pairings, |teams|)
    ensures RoundMatches(pairings, teams, 1, round0).nextRound == round0 + Count(pairings, RealPair(teams))
  {
    FilterLength(pairings, RealPair(teams));
    SessionsNeededIsCeiling(Count(pairings, RealPair(teams)), 1);
  }

  // ---------------------------------------------------------------------
  // The whole schedule
  // ---------------------------------------------------------------------

  /** The match is in round `r`, real or not. */
  function At(r: int): Match -> bool
  {
    (m: Match) => m.round == r
  }

  /** Round number `r` holds between one and `c` real matches of `ms` when
      it is in `lo .. hi - 1`, and none otherwise. */
  ghost predicate NumberedAt(ms: seq<Match>, lo: int, hi: int, c: nat, r: int)
  {
    (lo <= r < hi ==> 1 <= Count(ms, RealIn(r)) <= c) &&
    (r < lo || r >= hi ==> Count(ms, RealIn(r)) == 0)
  }

  /** Round number `r` holds no match of `ms` unless it is in `lo .. hi`. */
  ghost predicate RangeAt(ms: seq<Match>, lo: int, hi: int, r: int)
  {
    r < lo || r > hi ==> Count(ms, At(r)) == 0
  }

  /** RoundRounds and RoundRange for theoretical round `k` of the roster. */
  lemma RoundOfRounds(roster: seq<Team>, c: nat, k: nat, round0: int, r: int)
    requires |roster| >= 2 && |roster| % 2 == 0 && c >= 1
    ensures NumberedAt(RoundOf(roster, c, k, round0).matches, round0, RoundOf(roster, c, k, round0).nextRound, c, r)
    ensures RangeAt(RoundOf(roster, c, k, round0).matches, round0, RoundOf(roster, c, k, round0).nextRound, r)
  {
    RoundPairsWithin(|roster|, k);
    var pairings := RoundPairs(|roster|, k);
    RoundRounds(pairings, roster, c, round0, r);
    RoundRange(pairings, roster, c, round0);
    var result := RoundMatches(pairings, roster, c, round0);
    if r < round0 || r > result.nextRound {
      CountNone(result.matches, At(r));
    }
  }

  /** With one court, theoretical round `k` moves the counter by its number
      of real matches. */
  lemma RoundOfOneCourt(roster: seq<Team>, k: nat, round0: int)
    requires |roster| >= 2 && |roster| % 2 == 0
    ensures RoundOf(roster, 1, k, round0).nextRound == round0 + Count(RoundOf(roster, 1, k, round0).matches, IsRealMatch)
  {
    RoundPairsWithin(|roster|, k);
    var pairings := RoundPairs(|roster|, k);
    OneCourtRound(pairings, roster, round0);
    RealReflects(roster, 1);
    RoundCount(pairings, roster, 1, round0, IsRealMatch, RealPair(roster));
  }

  // The schedule as a chain of round results: each round starts from the
  // counter the previous one returned.

  /** The counter after the rounds `rs`: 1 before the first. */
  function Counter(rs: seq<RoundResult>): int
  {
    if rs == [] then 1 else rs[|rs| - 1].nextRound
  }

  /** The matches of the rounds `rs`, in order. */
  function Chain(rs: seq<RoundResult>): seq<Match>
  {
    if rs == [] then [] else Chain(rs[..|rs| - 1]) + rs[|rs| - 1].matches
  }

  /** The results of the first `rounds` theoretical rounds, each started
      from the counter of the rounds before it. */
  function RoundsOf(roster: seq<Team>, c: nat, rounds: nat): (rs: seq<RoundResult>)
    requires |roster| >= 2 && |roster| % 2 == 0 && c >= 1
    ensures |rs| == rounds
  {
    if rounds == 0 then []
    else
      var before := RoundsOf(roster, c, rounds - 1);
      before + [RoundOf(roster, c, rounds - 1, Counter(before))]
  }

  /** The schedule is the chain of its rounds. */
  lemma {:induction false} RoundsOfSchedule(roster: seq<Team>, c: nat, rounds: nat)
    requires |roster| >= 2 && |roster| % 2 == 0 && c >= 1
    ensures ScheduleUpTo(roster, c, rounds) == RoundResult(Chain(RoundsOf(roster, c, rounds)), Counter(RoundsOf(roster, c, rounds)))
  {
    if rounds > 0 {
      RoundsOfSchedule(roster, c, rounds - 1);
      var rs := RoundsOf(roster, c, rounds);
      assert rs[..rounds - 1] == RoundsOf(roster, c, rounds - 1);
    }
  }

  /** Every round of `rs` numbers its real matches from its starting
      counter up to before its returned one, and keeps every match between
      the two. */
  ghost predicate Numbered(rs: seq<RoundResult>, c: nat, r: int)
  {
    rs == [] ||
    (Numbered(rs[..|rs| - 1], c, r) &&
     Counter(rs[..|rs| - 1]) <= rs[|rs| - 1].nextRound &&
     NumberedAt(rs[|rs| - 1].matches, Counter(rs[..|rs| - 1]), rs[|rs| - 1].nextRound, c, r) &&
     RangeAt(rs[|rs| - 1].matches, Counter(rs[..|rs| - 1]), rs[|rs| - 1].nextRound, r))
  }

  /** Rounds numbered one after the other number the whole chain from 1. */
  lemma {:induction false} ChainNumbered(rs: seq<RoundResult>, c: nat, r: int)
    requires Numbered(rs, c, r)
    ensures Counter(rs) >= 1
    ensures NumberedAt(Chain(rs), 1, Counter(rs), c, r)
    ensures RangeAt(Chain(rs), 1, Counter(rs), r)
  {
    if rs != [] {
      var before, last := rs[..|rs| - 1], rs[|rs| - 1];
      ChainNumbered(before, c, r);
      CountAppend(Chain(before), last.matches, RealIn(r));
      CountAppend(Chain(before), last.matches, At(r));
    }
  }

  /** The rounds of the schedule are numbered one after the other. */
  lemma {:induction false} RoundsOfNumbered(roster: seq<Team>, c: nat, rounds: nat, r: int)
    requires |roster| >= 2 && |roster| % 2 == 0 && c >= 1
    ensures Numbered(RoundsOf(roster, c, rounds), c, r)
  {
    if rounds > 0 {
      RoundsOfNumbered(roster, c, rounds - 1, r);
      var before := RoundsOf(roster, c, rounds - 1);
      var rs := RoundsOf(roster, c, rounds);
      assert rs[..rounds - 1] == before;
      RoundOfRounds(roster, c, rounds - 1, Counter(before), r);
    }
  }

  /** Every round of `rs` moves the counter by its number of real matches. */
  ghost predicate OneByOne(rs: seq<RoundResult>)
  {
    rs == [] ||
    (OneByOne(rs[..|rs| - 1]) &&
     rs[|rs| - 1].nextRound == Counter(rs[..|rs| - 1]) + Count(rs[|rs| - 1].matches, IsRealMatch))
  }

  /** Rounds that each move the counter by their real matches end it one
      past the number of real matches of the chain. */
  lemma {:induction false} ChainOneByOne(rs: seq<RoundResult>)
    requires OneByOne(rs)
    ensures Counter(rs) == 1 + Count(Chain(rs), IsRealMatch)
  {
    if rs != [] {
      var before, last := rs[..|rs| - 1], rs[|rs| - 1];
      ChainOneByOne(before);
      CountAppend(Chain(before), last.matches, IsRealMatch);
    }
  }

  /** With one court, the rounds of the schedule each move the counter by
      their real matches. */
  lemma {:induction false} RoundsOfOneByOne(roster: seq<Team>, rounds: nat)
    requires |roster| >= 2 && |roster| % 2 == 0
    ensures OneByOne(RoundsOf(roster, 1, rounds))
  {
    if rounds > 0 {
      RoundsOfOneByOne(roster, rounds - 1);
      var before := RoundsOf(roster, 1, rounds - 1);
      var rs := RoundsOf(roster, 1, rounds);
      assert rs[..rounds - 1] == before;
      RoundOfOneCourt(roster, rounds - 1, Counter(before));
    }
  }

  /** The schedule of the first `rounds` theoretical rounds numbers its
      rounds 1, 2, ... up to before its counter: each of those holds between
      one and `c` real matches, no other round number holds one, and no
      match at all has a round number outside 1 up to the counter. */
  lemma ScheduleRounds(roster: seq<Team>, c: nat, rounds: nat, r: int)
    requires |roster| >= 2 && |roster| % 2 == 0 && c >= 1
    ensures ScheduleUpTo(roster, c, rounds).nextRound >= 1
    ensures NumberedAt(ScheduleUpTo(roster, c, rounds).matches, 1, ScheduleUpTo(roster, c, rounds).nextRound, c, r)
    ensures RangeAt(ScheduleUpTo(roster, c, rounds).matches, 1, ScheduleUpTo(roster, c, rounds).nextRound, r)
  {
    RoundsOfSchedule(roster, c, rounds);
    RoundsOfNumbered(roster, c, rounds, r);
    ChainNumbered(RoundsOf(roster, c, rounds), c, r);
  }

  /** With one court the counter ends one past the number of real matches. */
  lemma OneCourtSchedule(roster: seq<Team>, rounds: nat)
    requires |roster| >= 2 && |roster| % 2 == 0
    ensures ScheduleUpTo(roster, 1, rounds).nextRound == 1 + Count(ScheduleUpTo(roster, 1, rounds).matches, IsRealMatch)
  {
    RoundsOfSchedule(roster, 1, rounds);
    RoundsOfOneByOne(roster, rounds);
    ChainOneByOne(RoundsOf(roster, 1, rounds));
  }

  /** The round counter of generateBalancedSchedule after its last round. */
  function FinalRound(teams: seq<Team>, c: nat, byeId: nat): int
    requires c >= 1
  {
    if teams == [] then 1
    else
      var config := MakeConfig(teams, c, byeId);
      ScheduleUpTo(config.workingTeams, c, config.idealRounds).nextRound
  }

  /** Round numbers start at 1 and have no gaps: every match has a round
      from 1 up to the final counter, every round number below it holds
      between one and `c` real matches, and no other round number holds a
      real match. */
  lemma RoundNumbering(teams: seq<Team>, c: nat, byeId: nat)
    requires c >= 1
    ensures FinalRound(teams, c, byeId) >= 1
    ensures forall i :: 0 <= i < |BalancedSchedule(teams, c, byeId)| ==>
      1 <= BalancedSchedule(teams, c, byeId)[i].round <= FinalRound(teams, c, byeId)
    ensures forall r :: 1 <= r < FinalRound(teams, c, byeId) ==>
      1 <= Count(BalancedSchedule(teams, c, byeId), RealIn(r)) <= c
    ensures forall r :: r < 1 || r >= FinalRound(teams, c, byeId) ==>
      Count(BalancedSchedule(teams, c, byeId), RealIn(r)) == 0
  {
    if teams != [] {
      var config := MakeConfig(teams, c, byeId);
      var schedule := ScheduleUpTo(config.workingTeams, c, config.idealRounds);
      forall r: int
        ensures (1 <= r < schedule.nextRound ==> 1 <= Count(schedule.matches, RealIn(r)) <= c) &&
          (r < 1 || r >= schedule.nextRound ==> Count(schedule.matches, RealIn(r)) == 0)
        ensures r < 1 || r > schedule.nextRound ==> Count(schedule.matches, At(r)) == 0
      {
        ScheduleRounds(config.workingTeams, c, config.idealRounds, r);
      }
      forall i | 0 <= i < |schedule.matches|
        ensures 1 <= schedule.matches[i].round <= schedule.nextRound
      {
        CountAtLeastOne(schedule.matches, i, At(schedule.matches[i].round));
      }
    } else {
      forall r: int
        ensures Count(BalancedSchedule(teams, c, byeId), RealIn(r)) == 0
      {
      }
    }
  }

  /** With a single court, `k` real teams play `k(k-1)/2` rounds of exactly
      one real match each (four teams: six rounds). */
  lemma OneCourtOneMatchPerRound(teams: seq<Team>, byeId: nat)
    requires NoBye(teams)
    ensures FinalRound(teams, 1, byeId) - 1 == |teams| * (|teams| - 1) / 2
    ensures forall r :: 1 <= r < FinalRound(teams, 1, byeId) ==> Count(BalancedSchedule(teams, 1, byeId), RealIn(r)) == 1
  {
    RealMatchTotal(teams, 1, byeId);
    RoundNumbering(teams, 1, byeId);
    if teams != [] {
      var config := MakeConfig(teams, 1, byeId);
      OneCourtSchedule(config.workingTeams, config.idealRounds);
    }
  }
}
