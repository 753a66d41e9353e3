/** What the whole schedule of generateBalancedSchedule (Tournament.swift,
    lines 358-391) guarantees: every pair of teams meets exactly once, every
    team sits out exactly once on an odd roster, the number of real matches
    is `k(k-1)/2`, and every match is well formed.  Each fact is a count
    over the matches; it is reduced to a count over the pairings of each
    theoretical round, where the circle method decides it. */
module Fairness {
  import opened Counting
  import opened Arith
  import opened Model
  import opened Circle
  import opened Sessions
  import opened Schedule

  // ---------------------------------------------------------------------
  // Counting pairings round by round
  // ---------------------------------------------------------------------

  /** The circle-method pairings of theoretical round `r`, before the
      cyclic shift (which changes no count). */
  function CircleRound(n: nat, r: nat): (ps: seq<Pair>)
    requires n >= 2 && n % 2 == 0
    ensures |ps| == n / 2
  {
    CirclePairs(Arrangement(n, r), n / 2, r)
  }

  /** The circle-method pairings of the first `k` theoretical rounds. */
  function CircleRounds(n: nat, k: nat): (rs: seq<seq<Pair>>)
    requires n >= 2 && n % 2 == 0
    ensures |rs| == k
  {
    seq(k, r requires 0 <= r => CircleRound(n, r))
  }

  /** The circle-method pairings of all `n - 1` theoretical rounds. */
  function AllRounds(n: nat): (rs: seq<seq<Pair>>)
    requires n >= 2 && n % 2 == 0
    ensures |rs| == n - 1
  {
    CircleRounds(n, n - 1)
  }

  /** The number of pairings satisfying `q` over a list of rounds. */
  function Tally(rs: seq<seq<Pair>>, q: Pair -> bool): nat
  {
    if rs == [] then 0 else Tally(rs[..|rs| - 1], q) + Count(rs[|rs| - 1], q)
  }

  lemma CircleRoundsGrow(n: nat, k: nat)
    requires n >= 2 && n % 2 == 0
    ensures CircleRounds(n, k + 1) == CircleRounds(n, k) + [CircleRound(n, k)]
  {
  }

  /** One more round adds its own count. */
  lemma TallyAppend(rs: seq<seq<Pair>>, ps: seq<Pair>, q: Pair -> bool)
    ensures Tally(rs + [ps], q) == Tally(rs, q) + Count(ps, q)
  {
    assert (rs + [ps])[..|rs|] == rs;
  }

  /** Rounds that each hold `k` pairings satisfying `q` hold `|rs| * k` together. */
  lemma {:induction false} ConstantTally(rs: seq<seq<Pair>>, q: Pair -> bool, k: nat)
    requires forall r :: 0 <= r < |rs| ==> Count(rs[r], q) == k
    ensures Tally(rs, q) == |rs| * k
  {
    if rs != [] {
      var init := rs[..|rs| - 1];
      forall r | 0 <= r < |init|
        ensures Count(init[r], q) == k
      {
        assert init[r] == rs[r];
      }
      ConstantTally(init, q, k);
      Distribute(|init|, 1, k);
    }
  }

  /** Rounds of which only round `m` holds a pairing satisfying `q`, and
      that one only once, hold one such pairing if `m` is among them. */
  lemma {:induction false} UniqueTally(rs: seq<seq<Pair>>, q: Pair -> bool, m: nat)
    requires forall r :: 0 <= r < |rs| ==> Count(rs[r], q) == if r == m then 1 else 0
    ensures Tally(rs, q) == if m < |rs| then 1 else 0
  {
    if rs != [] {
      var init := rs[..|rs| - 1];
      forall r | 0 <= r < |init|
        ensures Count(init[r], q) == if r == m then 1 else 0
      {
        assert init[r] == rs[r];
      }
      UniqueTally(init, q, m);
    }
  }

  /** Counting the matches of one round by a predicate that reflects a
      pairing predicate counts the round's pairings; the shift is undone. */
  lemma RoundOfCount(roster: seq<Team>, c: nat, r: nat, round0: int, P: Match -> bool, Q: Pair -> bool)
    requires |roster| >= 2 && |roster| % 2 == 0 && c >= 1 && Reflects(roster, c, P, Q)
    ensures Count(RoundOf(roster, c, r, round0).matches, P) == Count(CircleRound(|roster|, r), Q)
  {
    RoundPairsWithin(|roster|, r);
    RoundCount(RoundPairs(|roster|, r), roster, c, round0, P, Q);
    CountRotateLeft(CircleRound(|roster|, r), Wrap(r, |roster| / 2), Q);
  }

  /** Counting the matches of the first rounds by a predicate that reflects
      a pairing predicate counts the pairings of those rounds. */
  lemma {:induction false} ScheduleCount(roster: seq<Team>, c: nat, rounds: nat, P: Match -> bool, Q: Pair -> bool)
    requires |roster| >= 2 && |roster| % 2 == 0 && c >= 1 && Reflects(roster, c, P, Q)
    ensures Count(ScheduleUpTo(roster, c, rounds).matches, P) == Tally(CircleRounds(|roster|, rounds), Q)
  {
    if rounds > 0 {
      var n := |roster|;
      ScheduleCount(roster, c, rounds - 1, P, Q);
      var before := ScheduleUpTo(roster, c, rounds - 1);
      var round := RoundOf(roster, c, rounds - 1, before.nextRound);
      ScheduleStep(roster, c, rounds - 1, before.matches, before.nextRound, round);
      RoundOfCount(roster, c, rounds - 1, before.nextRound, P, Q);
      CountAppend(before.matches, round.matches, P);
      CircleRoundsGrow(n, rounds - 1);
      TallyAppend(CircleRounds(n, rounds - 1), CircleRound(n, rounds - 1), Q);
    }
  }

  /** Every index is in exactly one pairing of each round. */
  lemma HoldsOnce(n: nat, r: nat, x: nat)
    requires n >= 2 && n % 2 == 0 && x < n
    ensures Count(CircleRound(n, r), Holds(x)) == 1
  {
    ArrangementIsPermutation(n, r);
    EachIndexInOnePairing(Arrangement(n, r), r, x);
  }

  // ---------------------------------------------------------------------
  // Teams told apart by name
  // ---------------------------------------------------------------------

  /** No two teams share a name (the source compares teams by name). */
  predicate DistinctNames(teams: seq<Team>)
  {
    forall i, j :: 0 <= i < j < |teams| ==> teams[i].name != teams[j].name
  }

  predicate NoBye(teams: seq<Team>)
  {
    forall i :: 0 <= i < |teams| ==> !IsBye(teams[i])
  }

  lemma NameIndex(teams: seq<Team>, i: nat, j: nat)
    requires DistinctNames(teams) && i < |teams| && j < |teams|
    ensures teams[i].name == teams[j].name <==> i == j
  {
    if i > j {
      assert teams[j].name != teams[i].name;
    }
  }

  /** The match is between the teams named `a` and `b`, either way round. */
  function Between(a: string, b: string): Match -> bool
  {
    (m: Match) => (m.team1.name == a && m.team2.name == b) || (m.team1.name == b && m.team2.name == a)
  }

  /** The team named `a` plays in the match. */
  function Involves(a: string): Match -> bool
  {
    (m: Match) => m.team1.name == a || m.team2.name == a
  }

  function AnyPair(): Pair -> bool
  {
    (p: Pair) => true
  }

  function AnyMatch(): Match -> bool
  {
    (m: Match) => true
  }

  function NoPair(): Pair -> bool
  {
    (p: Pair) => false
  }

  /** Courts, scores and the place of the Bye as createSessionMatches sets them. */
  function WellFormed(c: int): Match -> bool
  {
    (m: Match) =>
      (IsByeMatch(m) ==> m.courtNumber == 0) &&
      (IsRealMatch(m) ==> 1 <= m.courtNumber <= c) &&
      m.team1Score == 0 && m.team2Score == 0 && !m.isCompleted &&
      (IsBye(m.team1) ==> IsBye(m.team2))
  }

  lemma BetweenReflects(roster: seq<Team>, c: nat, u: nat, v: nat)
    requires c >= 1 && DistinctNames(roster) && u < |roster| && v < |roster| && u != v
    ensures Reflects(roster, c, Between(roster[u].name, roster[v].name), Joins(u, v))
  {
    forall p: Pair, courtIndex: nat, round: int | p.first < |roster| && p.second < |roster|
      ensures Between(roster[u].name, roster[v].name)(PairMatch(roster, p, courtIndex, round, c)) == Joins(u, v)(p)
    {
      NameIndex(roster, p.first, u);
      NameIndex(roster, p.first, v);
      NameIndex(roster, p.second, u);
      NameIndex(roster, p.second, v);
    }
  }

  lemma InvolvesReflects(roster: seq<Team>, c: nat, x: nat)
    requires c >= 1 && DistinctNames(roster) && x < |roster|
    ensures Reflects(roster, c, Involves(roster[x].name), Holds(x))
  {
    forall p: Pair, courtIndex: nat, round: int | p.first < |roster| && p.second < |roster|
      ensures Involves(roster[x].name)(PairMatch(roster, p, courtIndex, round, c)) == Holds(x)(p)
    {
      NameIndex(roster, p.first, x);
      NameIndex(roster, p.second, x);
    }
  }

  lemma RealReflects(roster: seq<Team>, c: nat)
    requires c >= 1
    ensures Reflects(roster, c, IsRealMatch, RealPair(roster))
  {
  }

  lemma WellFormedReflects(roster: seq<Team>, c: nat)
    requires c >= 1
    ensures Reflects(roster, c, WellFormed(c), AnyPair())
  {
  }

  lemma AnyReflects(roster: seq<Team>, c: nat)
    requires c >= 1
    ensures Reflects(roster, c, AnyMatch(), AnyPair())
  {
  }

  lemma ByeMatchReflects(roster: seq<Team>, c: nat)
    requires c >= 1 && NoBye(roster)
    ensures Reflects(roster, c, IsByeMatch, NoPair())
  {
  }

  // ---------------------------------------------------------------------
  // The working roster
  // ---------------------------------------------------------------------

  /** The padded roster keeps the teams, keeps their names distinct and
      holds a Bye only at the end of an odd roster. */
  lemma RosterFacts(teams: seq<Team>, c: nat, byeId: nat)
    requires teams != [] && DistinctNames(teams) && NoBye(teams)
    ensures var roster := MakeConfig(teams, c, byeId).workingTeams;
      |roster| >= 2 && |roster| % 2 == 0 && DistinctNames(roster) &&
      (forall i :: 0 <= i < |teams| ==> roster[i] == teams[i]) &&
      (|teams| % 2 == 0 ==> roster == teams) &&
      (|teams| % 2 == 1 ==> |roster| == |teams| + 1 && roster[|teams|].name == ByeName)
  {
    var roster := MakeConfig(teams, c, byeId).workingTeams;
    forall i | 0 <= i < |teams|
      ensures roster[i] == teams[i]
    {
      assert roster[..|teams|][i] == roster[i];
    }
    if |teams| % 2 == 0 {
      assert roster == roster[..|teams|];
    } else {
      forall i, j | 0 <= i < j < |roster|
        ensures roster[i].name != roster[j].name
      {
        if j == |teams| {
          assert !IsBye(teams[i]);
        } else {
          assert teams[i].name != teams[j].name;
        }
      }
    }
  }

  // ---------------------------------------------------------------------
  // The n - 1 rounds of the circle method
  // ---------------------------------------------------------------------

  /** Two distinct indices are paired in exactly one of the `n - 1` rounds. */
  lemma JoinsOverRounds(n: nat, u: nat, v: nat)
    requires n >= 2 && n % 2 == 0 && u < n && v < n && u != v
    ensures Tally(AllRounds(n), Joins(u, v)) == 1
  {
    var rs := AllRounds(n);
    MeetingRoundUnique(n, u, v, 0);
    forall r | 0 <= r < |rs|
      ensures Count(rs[r], Joins(u, v)) == if r == MeetingRound(n, u, v) then 1 else 0
    {
      RoundJoins(n, r, u, v);
    }
    UniqueTally(rs, Joins(u, v), MeetingRound(n, u, v));
  }

  /** Rounds that each count `k` add up to `(n - 1) * k`; the product is
      passed in as `total` so that callers state it in their own terms. */
  lemma ConstantRounds(n: nat, q: Pair -> bool, k: nat, total: nat)
    requires n >= 2 && n % 2 == 0 && total == (n - 1) * k
    requires forall r :: 0 <= r < n - 1 ==> Count(CircleRound(n, r), q) == k
    ensures Tally(AllRounds(n), q) == total
  {
    var rs := AllRounds(n);
    forall r | 0 <= r < |rs|
      ensures Count(rs[r], q) == k
    {
      assert rs[r] == CircleRound(n, r);
    }
    ConstantTally(rs, q, k);
  }

  /** Every index is in one pairing per round: `n - 1` over all rounds. */
  lemma HoldsOverRounds(n: nat, x: nat)
    requires n >= 2 && n % 2 == 0 && x < n
    ensures Tally(AllRounds(n), Holds(x)) == n - 1
  {
    var rs := AllRounds(n);
    forall r | 0 <= r < |rs|
      ensures Count(rs[r], Holds(x)) == 1
    {
      HoldsOnce(n, r, x);
    }
    ConstantTally(rs, Holds(x), 1);
  }

  /** The rounds hold `n / 2` pairings each. */
  lemma PairsOverRounds(n: nat)
    requires n >= 2 && n % 2 == 0
    ensures Tally(AllRounds(n), AnyPair()) == (n - 1) * (n / 2)
  {
    var rs := AllRounds(n);
    forall r | 0 <= r < |rs|
      ensures Count(rs[r], AnyPair()) == n / 2
    {
      CountAll(rs[r], AnyPair());
    }
    ConstantTally(rs, AnyPair(), n / 2);
  }

  /** A round of the padded roster has `n/2` pairings, one fewer real ones
      when the Bye sits at index `n - 1`. */
  lemma RealPairsOfRound(roster: seq<Team>, r: nat)
    requires |roster| >= 2 && |roster| % 2 == 0
    requires forall i :: 0 <= i < |roster| - 1 ==> !IsBye(roster[i])
    ensures Count(CircleRound(|roster|, r), RealPair(roster)) ==
      if IsBye(roster[|roster| - 1]) then |roster| / 2 - 1 else |roster| / 2
  {
    var n := |roster|;
    CircleRoundProper(n, r);
    if IsBye(roster[n - 1]) {
      RealCountWithBye(CircleRound(n, r), roster);
      HoldsOnce(n, r, n - 1);
    } else {
      RealCountWithoutBye(CircleRound(n, r), roster);
    }
  }

  /** The pairings of a round are within the roster and never pair an
      index with itself. */
  lemma CircleRoundProper(n: nat, r: nat)
    requires n >= 2 && n % 2 == 0
    ensures PairsWithin(CircleRound(n, r), n)
    ensures forall i :: 0 <= i < n / 2 ==> CircleRound(n, r)[i].first != CircleRound(n, r)[i].second
  {
    ArrangementIsPermutation(n, r);
    RoundPairsAreProper(Arrangement(n, r), r);
  }

  /** On a roster whose only Bye is last, a proper pairing is real exactly
      when it does not hold that last index. */
  lemma {:induction false} RealCountWithBye(ps: seq<Pair>, roster: seq<Team>)
    requires |roster| >= 2 && PairsWithin(ps, |roster|)
    requires forall i :: 0 <= i < |ps| ==> ps[i].first != ps[i].second
    requires forall i :: 0 <= i < |roster| - 1 ==> !IsBye(roster[i])
    requires IsBye(roster[|roster| - 1])
    ensures Count(ps, RealPair(roster)) + Count(ps, Holds(|roster| - 1)) == |ps|
  {
    CountComplement(ps, RealPair(roster), Holds(|roster| - 1));
  }

  /** On a roster without a Bye every pairing within it is real. */
  lemma RealCountWithoutBye(ps: seq<Pair>, roster: seq<Team>)
    requires |roster| >= 2 && PairsWithin(ps, |roster|)
    requires forall i :: 0 <= i < |roster| - 1 ==> !IsBye(roster[i])
    requires !IsBye(roster[|roster| - 1])
    ensures Count(ps, RealPair(roster)) == |ps|
  {
    CountAll(ps, RealPair(roster));
  }

  /** Over all rounds, the real pairings number `n - 1` times those of one round. */
  lemma RealOverRounds(roster: seq<Team>)
    requires |roster| >= 2 && |roster| % 2 == 0
    requires forall i :: 0 <= i < |roster| - 1 ==> !IsBye(roster[i])
    ensures IsBye(roster[|roster| - 1]) ==>
      Tally(AllRounds(|roster|), RealPair(roster)) == (|roster| - 1) * (|roster| / 2 - 1)
    ensures !IsBye(roster[|roster| - 1]) ==>
      Tally(AllRounds(|roster|), RealPair(roster)) == (|roster| - 1) * (|roster| / 2)
  {
    var n := |roster|;
    var perRound := if IsBye(roster[n - 1]) then n / 2 - 1 else n / 2;
    forall r | 0 <= r < n - 1
      ensures Count(CircleRound(n, r), RealPair(roster)) == perRound
    {
      RealPairsOfRound(roster, r);
    }
    if IsBye(roster[n - 1]) {
      ConstantRounds(n, RealPair(roster), n / 2 - 1, (|roster| - 1) * (|roster| / 2 - 1));
    } else {
      ConstantRounds(n, RealPair(roster), n / 2, (|roster| - 1) * (|roster| / 2));
    }
  }

  /** `k(k-1)/2` counted the way the rounds count it: `k - 1` rounds of
      `k/2` on an even roster, `k` rounds of `(k-1)/2` on an odd one. */
  lemma HalfProduct(k: nat)
    requires k >= 1
    ensures k % 2 == 0 ==> (k - 1) * (k / 2) == k * (k - 1) / 2
    ensures k % 2 == 1 ==> k * ((k + 1) / 2 - 1) == k * (k - 1) / 2
  {
    var h := k / 2;
    if k % 2 == 0 {
      assert k == h + h;
      Distribute(h, h, k - 1);
      assert k * (k - 1) == (h + h) * (k - 1);
      assert (k - 1) * h == h * (k - 1);
    } else {
      assert (k + 1) / 2 - 1 == h;
      assert k - 1 == h + h;
      Distribute(h, h, k);
      assert k * (k - 1) == (h + h) * k;
      assert k * h == h * k;
    }
  }

  // ---------------------------------------------------------------------
  // The whole schedule
  // ---------------------------------------------------------------------

  /** Counting the schedule by a predicate that reflects a pairing
      predicate on the padded roster counts the pairings of its `n - 1`
      rounds. */
  lemma BalancedTally(teams: seq<Team>, c: nat, byeId: nat, P: Match -> bool, Q: Pair -> bool)
    requires c >= 1 && teams != [] && Reflects(MakeConfig(teams, c, byeId).workingTeams, c, P, Q)
    ensures var n := |MakeConfig(teams, c, byeId).workingTeams|;
      Count(BalancedSchedule(teams, c, byeId), P) == Tally(AllRounds(n), Q)
  {
    var config := MakeConfig(teams, c, byeId);
    ScheduleCount(config.workingTeams, c, config.idealRounds, P, Q);
  }

  /** On the padded roster, the matches between the teams named like
      teams `i` and `j` reflect the pairings of indices `i` and `j`. */
  lemma BetweenOnRoster(teams: seq<Team>, c: nat, byeId: nat, i: nat, j: nat, b: string)
    requires c >= 1 && DistinctNames(teams) && NoBye(teams) && i < |teams| && i != j
    requires (j < |teams| && b == teams[j].name) || (|teams| % 2 == 1 && j == |teams| && b == ByeName)
    ensures var roster := MakeConfig(teams, c, byeId).workingTeams;
      |roster| >= 2 && |roster| % 2 == 0 && i < |roster| && j < |roster| &&
      Reflects(roster, c, Between(teams[i].name, b), Joins(i, j))
  {
    RosterFacts(teams, c, byeId);
    var roster := MakeConfig(teams, c, byeId).workingTeams;
    assert roster[i].name == teams[i].name && roster[j].name == b;
    BetweenReflects(roster, c, i, j);
  }

  /** Every pair of distinct teams meets in exactly one match. */
  lemma EveryPairMeetsOnce(teams: seq<Team>, c: nat, byeId: nat, i: nat, j: nat)
    requires c >= 1 && DistinctNames(teams) && NoBye(teams)
    requires i < |teams| && j < |teams| && i != j
    ensures Count(BalancedSchedule(teams, c, byeId), Between(teams[i].name, teams[j].name)) == 1
  {
    var n := |MakeConfig(teams, c, byeId).workingTeams|;
    BetweenOnRoster(teams, c, byeId, i, j, teams[j].name);
    BalancedTally(teams, c, byeId, Between(teams[i].name, teams[j].name), Joins(i, j));
    JoinsOverRounds(n, i, j);
  }

  /** On an odd roster every team meets the Bye, that is sits out, exactly once. */
  lemma ByeOncePerTeam(teams: seq<Team>, c: nat, byeId: nat, i: nat)
    requires c >= 1 && DistinctNames(teams) && NoBye(teams) && |teams| % 2 == 1 && i < |teams|
    ensures Count(BalancedSchedule(teams, c, byeId), Between(teams[i].name, ByeName)) == 1
  {
    var n := |MakeConfig(teams, c, byeId).workingTeams|;
    BetweenOnRoster(teams, c, byeId, i, |teams|, ByeName);
    BalancedTally(teams, c, byeId, Between(teams[i].name, ByeName), Joins(i, |teams|));
    JoinsOverRounds(n, i, |teams|);
  }

  /** On an even roster nobody sits out: there is no bye match. */
  lemma NoByeMatchWhenEven(teams: seq<Team>, c: nat, byeId: nat)
    requires c >= 1 && NoBye(teams) && |teams| % 2 == 0
    ensures Count(BalancedSchedule(teams, c, byeId), IsByeMatch) == 0
  {
    if teams != [] {
      var roster := MakeConfig(teams, c, byeId).workingTeams;
      assert roster == roster[..|teams|] == teams;
      ByeMatchReflects(roster, c);
      BalancedTally(teams, c, byeId, IsByeMatch, NoPair());
      var rs := AllRounds(|roster|);
      forall r | 0 <= r < |rs|
        ensures Count(rs[r], NoPair()) == 0
      {
        CountNone(rs[r], NoPair());
      }
      ConstantTally(rs, NoPair(), 0);
    }
  }

  /** Every team plays in `n - 1` matches, `n` being the padded roster size:
      one per theoretical round, its bye match included. */
  lemma MatchesPerTeam(teams: seq<Team>, c: nat, byeId: nat, i: nat)
    requires c >= 1 && DistinctNames(teams) && NoBye(teams) && i < |teams|
    ensures Count(BalancedSchedule(teams, c, byeId), Involves(teams[i].name)) ==
      if |teams| % 2 == 0 then |teams| - 1 else |teams|
  {
    RosterFacts(teams, c, byeId);
    var roster := MakeConfig(teams, c, byeId).workingTeams;
    InvolvesReflects(roster, c, i);
    BalancedTally(teams, c, byeId, Involves(teams[i].name), Holds(i));
    HoldsOverRounds(|roster|, i);
  }

  /** `k` real teams play exactly `k(k-1)/2` real matches. */
  lemma RealMatchTotal(teams: seq<Team>, c: nat, byeId: nat)
    requires c >= 1 && NoBye(teams)
    ensures Count(BalancedSchedule(teams, c, byeId), IsRealMatch) == |teams| * (|teams| - 1) / 2
  {
    if teams != [] {
      var roster := MakeConfig(teams, c, byeId).workingTeams;
      RealReflects(roster, c);
      BalancedTally(teams, c, byeId, IsRealMatch, RealPair(roster));
      RealRoundsTotal(teams, c, byeId);
    }
  }

  /** Over the rounds of the padded roster of `k` real teams, the real
      pairings number `k(k-1)/2`. */
  lemma RealRoundsTotal(teams: seq<Team>, c: nat, byeId: nat)
    requires c >= 1 && NoBye(teams) && teams != []
    ensures var roster := MakeConfig(teams, c, byeId).workingTeams;
      Tally(AllRounds(|roster|), RealPair(roster)) == |teams| * (|teams| - 1) / 2
  {
    var k := |teams|;
    var roster := MakeConfig(teams, c, byeId).workingTeams;
    var n := |roster|;
    assert roster[..k] == teams;
    forall i | 0 <= i < n - 1
      ensures !IsBye(roster[i])
    {
      assert roster[i] == roster[..k][i];
    }
    assert IsBye(roster[n - 1]) <==> k % 2 == 1;
    RealOverRounds(roster);
    HalfProduct(k);
    if k % 2 == 0 {
      assert n == k;
      MulCongruent(n - 1, n / 2, k - 1, k / 2);
    } else {
      assert n == k + 1;
      MulCongruent(n - 1, n / 2 - 1, k, (k + 1) / 2 - 1);
    }
  }

  /** The schedule of an `n`-team padded roster has `n(n-1)/2` matches;
      none for no teams. */
  lemma ScheduleLength(teams: seq<Team>, c: nat, byeId: nat)
    requires c >= 1
    ensures |BalancedSchedule(teams, c, byeId)| == (|teams| + |teams| % 2) * (|teams| + |teams| % 2 - 1) / 2
    ensures teams == [] <==> BalancedSchedule(teams, c, byeId) == []
  {
    if teams != [] {
      var n := |MakeConfig(teams, c, byeId).workingTeams|;
      var schedule := BalancedSchedule(teams, c, byeId);
      AnyReflects(MakeConfig(teams, c, byeId).workingTeams, c);
      BalancedTally(teams, c, byeId, AnyMatch(), AnyPair());
      PairsOverRounds(n);
      CountAll(schedule, AnyMatch());
      HalfProduct(n);
      assert n == |teams| + |teams| % 2;
    }
  }

  /** Every match has its court in range (0 for a bye match, `1..c` for a
      real one), no score, is not completed, and has the Bye only as `team2`. */
  lemma MatchesWellFormed(teams: seq<Team>, c: nat, byeId: nat)
    requires c >= 1
    ensures forall i :: 0 <= i < |BalancedSchedule(teams, c, byeId)| ==> WellFormed(c)(BalancedSchedule(teams, c, byeId)[i])
  {
    if teams != [] {
      var roster := MakeConfig(teams, c, byeId).workingTeams;
      var schedule := BalancedSchedule(teams, c, byeId);
      WellFormedReflects(roster, c);
      BalancedTally(teams, c, byeId, WellFormed(c), AnyPair());
      AnyReflects(roster, c);
      BalancedTally(teams, c, byeId, AnyMatch(), AnyPair());
      CountAll(schedule, AnyMatch());
      CountFull(schedule, WellFormed(c));
    }
  }
}
