/** The whole schedule (Tournament.swift, lines 358-391): the circle
    method run for `n - 1` theoretical rounds over the working roster, each
    round turned into sessions of matches, with a round counter threaded
    through. */
module Schedule {
  import opened Counting
  import opened Model
  import opened Circle
  import opened Sessions

  /** The pairings of theoretical round `r` of an `n`-team roster: the
      circle method on the arrangement of round `r`, shifted cyclically by
      `r mod (n / 2)`. */
  function RoundPairs(n: nat, r: nat): (ps: seq<Pair>)
    requires n >= 2 && n % 2 == 0
    ensures |ps| == n / 2
  {
    RotateLeft(CirclePairs(Arrangement(n, r), n / 2, r), Wrap(r, n / 2))
  }

  lemma RoundPairsWithin(n: nat, r: nat)
    requires n >= 2 && n % 2 == 0
    ensures PairsWithin(RoundPairs(n, r), n)
  {
    ArrangementIsPermutation(n, r);
    RoundPairsAreProper(Arrangement(n, r), r);
    var base := CirclePairs(Arrangement(n, r), n / 2, r);
    var shift := Wrap(r, n / 2);
    forall i | 0 <= i < n / 2
      ensures RoundPairs(n, r)[i].first < n && RoundPairs(n, r)[i].second < n
    {
      RotateLeftAt(base, shift, i);
    }
  }

  /** The matches of theoretical round `r` of `roster`, numbered from
      `round0`, and the round counter after them. */
  function RoundOf(roster: seq<Team>, c: nat, r: nat, round0: int): (result: RoundResult)
    requires |roster| >= 2 && |roster| % 2 == 0 && c >= 1
    ensures result.nextRound >= round0
  {
    RoundPairsWithin(|roster|, r);
    RoundMatches(RoundPairs(|roster|, r), roster, c, round0)
  }

  /** The matches of the first `rounds` theoretical rounds and the round
      counter after them; the counter starts at 1. */
  function ScheduleUpTo(roster: seq<Team>, c: nat, rounds: nat): (result: RoundResult)
    requires |roster| >= 2 && |roster| % 2 == 0 && c >= 1
    ensures result.nextRound >= 1
  {
    if rounds == 0 then RoundResult([], 1)
    else
      var before := ScheduleUpTo(roster, c, rounds - 1);
      var round := RoundOf(roster, c, rounds - 1, before.nextRound);
      RoundResult(before.matches + round.matches, round.nextRound)
  }

  /** generateBalancedSchedule as a function: nothing for no teams, else
      the `n - 1` rounds of the padded roster. */
  function BalancedSchedule(teams: seq<Team>, c: nat, byeId: nat): seq<Match>
    requires c >= 1
  {
    if teams == [] then []
    else
      var config := MakeConfig(teams, c, byeId);
      ScheduleUpTo(config.workingTeams, c, config.idealRounds).matches
  }

  /** One more theoretical round extends the schedule and moves the counter. */
  lemma ScheduleStep(roster: seq<Team>, c: nat, r: nat, schedule: seq<Match>, currentRound: int, round: RoundResult)
    requires |roster| >= 2 && |roster| % 2 == 0 && c >= 1
    requires ScheduleUpTo(roster, c, r) == RoundResult(schedule, currentRound)
    requires round == RoundOf(roster, c, r, currentRound)
    ensures ScheduleUpTo(roster, c, r + 1) == RoundResult(schedule + round.matches, round.nextRound)
  {
  }

  /** One pass of the loop body of generateBalancedSchedule: the pairings
      of the current arrangement, shifted, split into sessions and appended;
      then the counter moves on and the arrangement rotates in place. */
  method ScheduleRound(indices: array<nat>, roster: seq<Team>, availableCourts: nat, idealRound: nat,
                       schedule: seq<Match>, currentRound: int)
    returns (schedule': seq<Match>, nextRound: int)
    requires |roster| >= 2 && |roster| % 2 == 0 && availableCourts >= 1
    requires indices[..] == Arrangement(|roster|, idealRound)
    requires ScheduleUpTo(roster, availableCourts, idealRound) == RoundResult(schedule, currentRound)
    modifies indices
    ensures indices[..] == Arrangement(|roster|, idealRound + 1)
    ensures ScheduleUpTo(roster, availableCourts, idealRound + 1) == RoundResult(schedule', nextRound)
  {
    var n := |roster|;
    var matchesPerRound := n / 2;
    var basePairings := GenerateRoundPairings(indices[..], matchesPerRound, idealRound);
    var pairings := RotatePairings(basePairings, idealRound, matchesPerRound);
    WrapIsMod(idealRound, matchesPerRound);
    assert pairings == RoundPairs(n, idealRound);
    RoundPairsWithin(n, idealRound);
    var round := ProcessRound(pairings, roster, availableCourts, currentRound);
    ScheduleStep(roster, availableCourts, idealRound, schedule, currentRound, round);
    schedule' := schedule + round.matches;
    nextRound := round.nextRound;
    RotateIndices(indices);
  }

  /** generateBalancedSchedule; `byeId` is the UUID a Bye placeholder
      would get. */
  method GenerateBalancedSchedule(teams: seq<Team>, availableCourts: nat, byeId: nat) returns (schedule: seq<Match>)
    requires availableCourts >= 1
    ensures schedule == BalancedSchedule(teams, availableCourts, byeId)
  {
    if |teams| == 0 {
      return [];
    }
    var config := MakeConfig(teams, availableCourts, byeId);
    var roster := config.workingTeams;
    var n := config.totalTeams;
    assert n == |roster| >= 2 && n % 2 == 0 && config.idealRounds == n - 1;
    schedule := [];
    var indices := new nat[n](i => i);
    assert indices[..] == Arrangement(n, 0);
    var currentRound := 1;
    for idealRound := 0 to config.idealRounds
      invariant indices[..] == Arrangement(n, idealRound)
      invariant ScheduleUpTo(roster, availableCourts, idealRound) == RoundResult(schedule, currentRound)
    {
      schedule, currentRound := ScheduleRound(indices, roster, availableCourts, idealRound, schedule, currentRound);
    }
  }
}
