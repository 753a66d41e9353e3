/** Standings and tournament state (Tournament.swift, lines 85-125 and
    196-208): the win/loss table built in a dictionary keyed by team UUID,
    sorted by wins; the classification of a schedule as set up, in progress
    or completed; and the schedule update that pads the roster and
    regenerates the matches. */
module Standings {
  import opened Counting
  import opened Arith
  import opened Model
  import opened Sessions
  import opened Schedule
  import opened Fairness

  // ---------------------------------------------------------------------
  // The standings dictionary
  // ---------------------------------------------------------------------

  /** The dictionary after its initialisation from the active teams: each
      team under its UUID, a later team replacing an earlier one with the
      same UUID. */
  function Seed(active: seq<Team>): (d: map<nat, Team>)
    ensures forall i :: 0 <= i < |active| ==> active[i].id in d
  {
    if active == [] then map[]
    else Seed(active[..|active| - 1])[active[|active| - 1].id := active[|active| - 1]]
  }

  /** Every entry is an active team under its own UUID. */
  lemma {:induction false} SeedEntries(active: seq<Team>)
    ensures forall k :: k in Seed(active) ==> Seed(active)[k] in active && Seed(active)[k].id == k
  {
    if active != [] {
      var init := active[..|active| - 1];
      SeedEntries(init);
      assert forall i :: 0 <= i < |init| ==> init[i] == active[i];
    }
  }

  lemma SeedStep(active: seq<Team>, i: nat)
    requires i < |active|
    ensures Seed(active[..i + 1]) == Seed(active[..i])[active[i].id := active[i]]
  {
    assert active[..i + 1][..i] == active[..i];
  }

  /** With distinct UUIDs every active team keeps its own entry. */
  lemma {:induction false} SeedOfDistinct(active: seq<Team>, i: nat)
    requires forall a, b :: 0 <= a < b < |active| ==> active[a].id != active[b].id
    requires i < |active|
    ensures Seed(active)[active[i].id] == active[i]
  {
    if i < |active| - 1 {
      var init := active[..|active| - 1];
      assert init[i] == active[i];
      SeedOfDistinct(init, i);
    }
  }

  /** A completed match whose scores are both non-negative: the only kind
      that changes the standings. */
  predicate Counted(m: Match)
  {
    m.isCompleted && m.team1Score >= 0 && m.team2Score >= 0
  }

  /** The match counts as a win for the team with UUID `k`. */
  function WinFor(k: nat): Match -> bool
  {
    (m: Match) => Counted(m) &&
      ((m.team1Score > m.team2Score && m.team1.id == k) || (m.team2Score > m.team1Score && m.team2.id == k))
  }

  /** The match counts as a loss for the team with UUID `k`. */
  function LossFor(k: nat): Match -> bool
  {
    (m: Match) => Counted(m) &&
      ((m.team1Score > m.team2Score && m.team2.id == k) || (m.team2Score > m.team1Score && m.team1.id == k))
  }

  /** `standingsDict[k]?.wins += 1`: nothing happens to an absent key. */
  function AddWin(d: map<nat, Team>, k: nat): (d': map<nat, Team>)
    ensures d'.Keys == d.Keys
  {
    if k in d then d[k := d[k].(wins := d[k].wins + 1)] else d
  }

  /** `standingsDict[k]?.losses += 1`. */
  function AddLoss(d: map<nat, Team>, k: nat): (d': map<nat, Team>)
    ensures d'.Keys == d.Keys
  {
    if k in d then d[k := d[k].(losses := d[k].losses + 1)] else d
  }

  /** One pass of the match loop of calculateStandings. */
  function Credit(d: map<nat, Team>, m: Match): (d': map<nat, Team>)
    ensures d'.Keys == d.Keys
  {
    if !Counted(m) then d
    else if m.team1Score > m.team2Score then AddLoss(AddWin(d, m.team1.id), m.team2.id)
    else if m.team2Score > m.team1Score then AddLoss(AddWin(d, m.team2.id), m.team1.id)
    else d
  }

  /** The dictionary after the match loop over `ms`. */
  function Record(d: map<nat, Team>, ms: seq<Match>): (d': map<nat, Team>)
    ensures d'.Keys == d.Keys
  {
    if ms == [] then d else Credit(Record(d, ms[..|ms| - 1]), ms[|ms| - 1])
  }

  lemma RecordStep(d: map<nat, Team>, ms: seq<Match>, j: nat)
    requires j < |ms|
    ensures Record(d, ms[..j + 1]) == Credit(Record(d, ms[..j]), ms[j])
  {
    assert ms[..j + 1][..j] == ms[..j];
  }

  /** One match moves the entry of `k` by its own win and loss. */
  lemma CreditAt(d: map<nat, Team>, m: Match, k: nat)
    requires k in d
    ensures Credit(d, m)[k] == d[k].(wins := d[k].wins + (if WinFor(k)(m) then 1 else 0),
                                    losses := d[k].losses + (if LossFor(k)(m) then 1 else 0))
  {
  }

  /** Each entry of the table ends with its initial record plus one win per
      decisive completed match it won and one loss per such match it lost;
      ties, unfinished matches and negative scores change nothing, and no
      entry is added or dropped. */
  lemma {:induction false} RecordTally(d: map<nat, Team>, ms: seq<Match>, k: nat)
    requires k in d
    ensures k in Record(d, ms)
    ensures Record(d, ms)[k] == d[k].(wins := d[k].wins + Count(ms, WinFor(k)),
                                     losses := d[k].losses + Count(ms, LossFor(k)))
  {
    if ms != [] {
      RecordTally(d, ms[..|ms| - 1], k);
      CreditAt(Record(d, ms[..|ms| - 1]), ms[|ms| - 1], k);
    }
  }

  // ---------------------------------------------------------------------
  // From the dictionary to the sorted standings
  // ---------------------------------------------------------------------

  /** The distinct UUIDs of `active`, in order of first appearance: the
      order in which the model reads the dictionary's values. */
  function KeyOrder(active: seq<Team>): (keys: seq<nat>)
    ensures forall i, j :: 0 <= i < j < |keys| ==> keys[i] != keys[j]
    ensures forall k :: k in keys <==> k in Seed(active)
  {
    if active == [] then []
    else
      var init, t := active[..|active| - 1], active[|active| - 1];
      var before := KeyOrder(init);
      assert forall i :: 0 <= i < |init| ==> init[i] == active[i];
      if t.id in before then before else before + [t.id]
  }

  /** The entries of `d` under `keys`, in that order. */
  function Values(d: map<nat, Team>, keys: seq<nat>): (vs: seq<Team>)
    requires forall k :: k in keys ==> k in d
    ensures |vs| == |keys|
    ensures forall i :: 0 <= i < |keys| ==> vs[i] == d[keys[i]]
  {
    seq(|keys|, i requires 0 <= i < |keys| => d[keys[i]])
  }

  /** Wins never increase along the list. */
  predicate WinsDescending(s: seq<Team>)
  {
    forall i, j :: 0 <= i < j < |s| ==> s[i].wins >= s[j].wins
  }

  predicate WinsDescendingStepwise(s: seq<Team>)
  {
    forall i :: 0 <= i < |s| - 1 ==> s[i].wins >= s[i + 1].wins
  }

  /** Inserting `t` into a list sorted by wins, after the teams with as
      many wins. */
  function Insert(t: Team, s: seq<Team>): (r: seq<Team>)
    ensures multiset(r) == multiset(s) + multiset{t}
    ensures |r| == |s| + 1
    ensures r[0] == t || (s != [] && r[0] == s[0])
    ensures WinsDescendingStepwise(s) ==> WinsDescendingStepwise(r)
  {
    if s == [] then [t]
    else if s[0].wins < t.wins then [t] + s
    else
      var rest := Insert(t, s[1..]);
      assert s == [s[0]] + s[1..];
      assert WinsDescendingStepwise(s) ==> WinsDescendingStepwise(s[1..]) by {
        if WinsDescendingStepwise(s) {
          forall i | 0 <= i < |s[1..]| - 1
            ensures s[1..][i].wins >= s[1..][i + 1].wins
          {
            assert s[1..][i] == s[i + 1] && s[1..][i + 1] == s[i + 2];
          }
        }
      }
      [s[0]] + rest
  }

  /** `sorted { $0.wins > $1.wins }`: a permutation of `s` with wins
      never increasing. */
  function SortByWins(s: seq<Team>): (r: seq<Team>)
    ensures multiset(r) == multiset(s)
    ensures |r| == |s|
    ensures WinsDescendingStepwise(r)
  {
    if s == [] then [] else
      assert s == s[..|s| - 1] + [s[|s| - 1]];
      Insert(s[|s| - 1], SortByWins(s[..|s| - 1]))
  }

  /** Sorted neighbour by neighbour is sorted throughout. */
  lemma {:induction false} StepwiseIsDescending(s: seq<Team>)
    requires WinsDescendingStepwise(s)
    ensures WinsDescending(s)
  {
    if |s| > 1 {
      var rest := s[1..];
      assert WinsDescendingStepwise(rest) by {
        forall i | 0 <= i < |rest| - 1
          ensures rest[i].wins >= rest[i + 1].wins
        {
          assert rest[i] == s[i + 1] && rest[i + 1] == s[i + 2];
        }
      }
      StepwiseIsDescending(rest);
      forall i, j | 0 <= i < j < |s|
        ensures s[i].wins >= s[j].wins
      {
        if i > 0 {
          assert s[i] == rest[i - 1] && s[j] == rest[j - 1];
        } else if j > 1 {
          assert s[j] == rest[j - 1] && s[1] == rest[0];
        }
      }
    }
  }

  /** The table of calculateStandings before sorting: the entries of the
      active teams after crediting `matches`. */
  function Table(teams: seq<Team>, matches: seq<Match>): seq<Team>
  {
    var active := ActiveTeams(teams);
    Values(Record(Seed(active), matches), KeyOrder(active))
  }

  /** calculateStandings, with the dictionary's values read in order of
      the teams' first appearance. */
  function StandingsOf(teams: seq<Team>, matches: seq<Match>): (standings: seq<Team>)
    ensures multiset(standings) == multiset(Table(teams, matches))
    ensures WinsDescending(standings)
  {
    var standings := SortByWins(Table(teams, matches));
    StepwiseIsDescending(standings);
    standings
  }

  /** calculateStandings: the dictionary is filled from the active teams,
      updated match by match, and its values sorted by wins. */
  method CalculateStandings(teams: seq<Team>, matches: seq<Match>) returns (standings: seq<Team>)
    ensures standings == StandingsOf(teams, matches)
  {
    var active := ActiveTeams(teams);
    var standingsDict: map<nat, Team> := map[];
    for i := 0 to |active|
      invariant standingsDict == Seed(active[..i])
    {
      SeedStep(active, i);
      standingsDict := standingsDict[active[i].id := active[i]];
    }
    TakeAll(active);
    for j := 0 to |matches|
      invariant standingsDict == Record(Seed(active), matches[..j])
    {
      var m := matches[j];
      RecordStep(Seed(active), matches, j);
      if m.isCompleted {
        if m.team1Score >= 0 && m.team2Score >= 0 {
          if m.team1Score > m.team2Score {
            standingsDict := AddLoss(AddWin(standingsDict, m.team1.id), m.team2.id);
          } else if m.team2Score > m.team1Score {
            standingsDict := AddLoss(AddWin(standingsDict, m.team2.id), m.team1.id);
          }
        }
      }
    }
    TakeAll(matches);
    var values := Values(standingsDict, KeyOrder(active));
    standings := SortByWins(values);
  }

  /** The entry of UUID `k` once `matches` are credited: the active team
      the dictionary holds under `k`, with one more win per match it won
      and one more loss per match it lost. */
  function Final(active: seq<Team>, matches: seq<Match>, k: nat): (t: Team)
    requires k in Seed(active)
    ensures t.id == k && t.name == Seed(active)[k].name && Seed(active)[k] in active
  {
    SeedEntries(active);
    var t := Seed(active)[k];
    t.(wins := t.wins + Count(matches, WinFor(k)), losses := t.losses + Count(matches, LossFor(k)))
  }

  /** The unsorted table lists the final entry of each distinct UUID. */
  lemma TableEntries(teams: seq<Team>, matches: seq<Match>)
    ensures var keys := KeyOrder(ActiveTeams(teams));
      |Table(teams, matches)| == |keys| &&
      forall i :: 0 <= i < |keys| ==> Table(teams, matches)[i] == Final(ActiveTeams(teams), matches, keys[i])
  {
    var active := ActiveTeams(teams);
    var keys := KeyOrder(active);
    forall i | 0 <= i < |keys|
      ensures Table(teams, matches)[i] == Final(active, matches, keys[i])
    {
      RecordTally(Seed(active), matches, keys[i]);
    }
  }

  /** Every entry of the standings is an active team (never the Bye) under
      its own UUID, with its record moved by exactly the matches it won and
      lost. */
  lemma StandingsEntries(teams: seq<Team>, matches: seq<Match>)
    ensures forall t :: t in StandingsOf(teams, matches) ==>
      !IsBye(t) && t.id in Seed(ActiveTeams(teams)) && t == Final(ActiveTeams(teams), matches, t.id)
  {
    var active := ActiveTeams(teams);
    var keys := KeyOrder(active);
    var table := Table(teams, matches);
    TableEntries(teams, matches);
    forall t | t in StandingsOf(teams, matches)
      ensures !IsBye(t) && t.id in Seed(active) && t == Final(active, matches, t.id)
    {
      assert t in multiset(table);
      var i :| 0 <= i < |table| && table[i] == t;
      assert t == Final(active, matches, keys[i]);
    }
  }

  /** Each UUID of an active team has exactly one entry in the standings. */
  lemma StandingsOnePerTeam(teams: seq<Team>, matches: seq<Match>, i: nat)
    requires i < |ActiveTeams(teams)|
    ensures multiset(StandingsOf(teams, matches))[Final(ActiveTeams(teams), matches, ActiveTeams(teams)[i].id)] == 1
  {
    var active := ActiveTeams(teams);
    var keys := KeyOrder(active);
    var table := Table(teams, matches);
    TableEntries(teams, matches);
    var k := active[i].id;
    assert k in keys;
    var p :| 0 <= p < |keys| && keys[p] == k;
    EntryOnce(table, keys, p);
  }

  /** An entry whose UUID occurs once among the keys occurs once in the table. */
  lemma EntryOnce(table: seq<Team>, keys: seq<nat>, p: nat)
    requires |table| == |keys| && p < |keys|
    requires forall i :: 0 <= i < |keys| ==> table[i].id == keys[i]
    requires forall i, j :: 0 <= i < j < |keys| ==> keys[i] != keys[j]
    ensures multiset(table)[table[p]] == 1
  {
    var x := table[p];
    var before, after := table[..p], table[p + 1..];
    assert table == before + [x] + after;
    forall i | 0 <= i < |before|
      ensures before[i] != x
    {
      assert before[i].id == keys[i];
    }
    forall i | 0 <= i < |after|
      ensures after[i] != x
    {
      assert after[i].id == keys[p + 1 + i];
    }
    assert x !in before && x !in after;
  }

  // ---------------------------------------------------------------------
  // updateState
  // ---------------------------------------------------------------------

  predicate IsCompleted(m: Match)
  {
    m.isCompleted
  }

  /** The matches a complete tournament of the roster's active teams has:
      one per pair of them. */
  function ExpectedMatches(teams: seq<Team>): nat
  {
    |ActiveTeams(teams)| * (|ActiveTeams(teams)| - 1) / 2
  }

  /** The state updateState sets for a roster and a schedule. */
  function StateOf(teams: seq<Team>, schedule: seq<Match>): TournamentState
  {
    var actualMatches := Filter(schedule, IsByeMatch, false);
    var totalMatches := |actualMatches|;
    var completedMatches := Count(actualMatches, IsCompleted);
    if totalMatches == 0 then Setup
    else if completedMatches == totalMatches && completedMatches == ExpectedMatches(teams) then
      var standings := StandingsOf(teams, actualMatches);
      Completed(if standings == [] then None else Some(standings[0]), standings)
    else InProgress(completedMatches, totalMatches)
  }

  /** updateState: the struct with its state recomputed, the rest as before. */
  method UpdateState(t: Tournament) returns (t': Tournament)
    ensures t' == t.(state := StateOf(t.teams, t.schedule))
  {
    var actualMatches := Filter(t.schedule, IsByeMatch, false);
    var totalMatches := |actualMatches|;
    var completedMatches := Count(actualMatches, IsCompleted);
    var expectedMatches := |ActiveTeams(t.teams)| * (|ActiveTeams(t.teams)| - 1) / 2;
    if totalMatches == 0 {
      t' := t.(state := Setup);
    } else if completedMatches == totalMatches && completedMatches == expectedMatches {
      var standings := CalculateStandings(t.teams, actualMatches);
      t' := t.(state := Completed(if standings == [] then None else Some(standings[0]), standings));
    } else {
      t' := t.(state := InProgress(completedMatches, totalMatches));
    }
  }

  /** The non-bye matches and the completed ones among them, counted on
      the whole schedule. */
  lemma {:induction false} RealCounts(schedule: seq<Match>)
    ensures |Filter(schedule, IsByeMatch, false)| == Count(schedule, IsRealMatch)
    ensures Count(Filter(schedule, IsByeMatch, false), IsCompleted) == Count(schedule, IsCompletedRealMatch)
  {
    if schedule != [] {
      var init, m := schedule[..|schedule| - 1], schedule[|schedule| - 1];
      RealCounts(init);
      var kept := Filter(init, IsByeMatch, false);
      if !IsByeMatch(m) {
        var grown := kept + [m];
        assert Filter(schedule, IsByeMatch, false) == grown;
        assert grown[..|grown| - 1] == kept;
      } else {
        assert Filter(schedule, IsByeMatch, false) == kept;
      }
    }
  }

  /** updateState's classification: set up exactly when there is no real
      match; completed exactly when there is one, every real match is
      completed and their number is the number of pairs of active teams;
      otherwise in progress with the completed and total real matches. */
  lemma StateClassifies(teams: seq<Team>, schedule: seq<Match>)
    ensures StateOf(teams, schedule).Setup? <==> Count(schedule, IsRealMatch) == 0
    ensures StateOf(teams, schedule).Completed? <==>
      Count(schedule, IsRealMatch) > 0 &&
      Count(schedule, IsCompletedRealMatch) == Count(schedule, IsRealMatch) == ExpectedMatches(teams)
    ensures StateOf(teams, schedule).InProgress? ==>
      StateOf(teams, schedule) == InProgress(Count(schedule, IsCompletedRealMatch), Count(schedule, IsRealMatch))
  {
    RealCounts(schedule);
  }

  /** A completed tournament has every real match completed; its winner
      heads its standings, which are sorted by wins, so no team has more
      wins than the winner. */
  lemma CompletedMeansAllPlayed(teams: seq<Team>, schedule: seq<Match>)
    requires StateOf(teams, schedule).Completed?
    ensures forall i :: 0 <= i < |schedule| && IsRealMatch(schedule[i]) ==> schedule[i].isCompleted
    ensures var st := StateOf(teams, schedule);
      st.winner.Some? <==> st.finalStandings != []
    ensures var st := StateOf(teams, schedule);
      st.winner.Some? ==> (st.winner.value == st.finalStandings[0] &&
        forall t :: t in st.finalStandings ==> t.wins <= st.winner.value.wins)
  {
    var actual := Filter(schedule, IsByeMatch, false);
    CountFull(actual, IsCompleted);
    FilterMembers(schedule, IsByeMatch, false);
    var st := StateOf(teams, schedule);
    if st.winner.Some? {
      forall t | t in st.finalStandings
        ensures t.wins <= st.winner.value.wins
      {
        var i :| 0 <= i < |st.finalStandings| && st.finalStandings[i] == t;
        assert i == 0 || st.finalStandings[0].wins >= st.finalStandings[i].wins;
      }
    }
  }

  // ---------------------------------------------------------------------
  // updateSchedule
  // ---------------------------------------------------------------------

  /** The tournament after updateSchedule: the roster padded with a Bye
      (UUID `byeId`) when odd, the schedule regenerated over the padded
      roster, the state recomputed. */
  function Scheduled(t: Tournament, byeId: nat): (r: Tournament)
    requires t.availableCourts >= 1
    ensures r.id == t.id && r.title == t.title && r.availableCourts == t.availableCourts
    ensures |r.teams| == |t.teams| + |t.teams| % 2
    ensures |r.teams| % 2 == 0 && r.teams[..|t.teams|] == t.teams
  {
    var working := MakeConfig(t.teams, t.availableCourts, byeId).workingTeams;
    var schedule := BalancedSchedule(working, t.availableCourts, byeId);
    t.(teams := working, schedule := schedule, state := StateOf(working, schedule))
  }

  /** updateSchedule. generateBalancedSchedule builds a configuration of
      its own from the padded roster; being even, that roster gets no
      second Bye, so the UUID it would take plays no part. */
  method UpdateSchedule(t: Tournament, byeId: nat) returns (t': Tournament)
    requires t.availableCourts >= 1
    ensures t' == Scheduled(t, byeId)
  {
    var config := MakeConfig(t.teams, t.availableCourts, byeId);
    var scheduled := t.(teams := config.workingTeams);
    var schedule := GenerateBalancedSchedule(config.workingTeams, t.availableCourts, byeId);
    scheduled := scheduled.(schedule := schedule);
    t' := UpdateState(scheduled);
  }

  /** The schedule generated over the padded roster is the schedule of the
      original roster: padding twice changes nothing. */
  lemma ScheduleOfPadded(teams: seq<Team>, c: nat, byeId: nat, byeId': nat)
    requires c >= 1
    ensures BalancedSchedule(MakeConfig(teams, c, byeId).workingTeams, c, byeId') == BalancedSchedule(teams, c, byeId)
  {
    PaddingIdempotent(teams, c, byeId, byeId');
  }

  /** Updating the schedule twice gives what updating it once gives: no
      second Bye joins the roster and the same matches are generated. */
  lemma UpdateScheduleIdempotent(t: Tournament, byeId: nat, byeId': nat)
    requires t.availableCourts >= 1
    ensures Scheduled(Scheduled(t, byeId), byeId') == Scheduled(t, byeId)
  {
    var once := Scheduled(t, byeId);
    PaddingIdempotent(t.teams, t.availableCourts, byeId, byeId');
    ScheduleOfPadded(once.teams, t.availableCourts, byeId', byeId);
  }

  /** A freshly scheduled tournament of `k` distinct real teams has no
      completed match: it is in progress with `k(k-1)/2` real matches to
      play when `k >= 2`, and still set up otherwise. */
  lemma FreshScheduleState(t: Tournament, byeId: nat)
    requires t.availableCourts >= 1 && NoBye(t.teams)
    ensures Scheduled(t, byeId).state ==
      if |t.teams| >= 2 then InProgress(0, |t.teams| * (|t.teams| - 1) / 2) else Setup
  {
    var c := t.availableCourts;
    var working := MakeConfig(t.teams, c, byeId).workingTeams;
    ScheduleOfPadded(t.teams, c, byeId, byeId);
    assert Scheduled(t, byeId).state == StateOf(working, BalancedSchedule(t.teams, c, byeId));
    FreshState(t.teams, c, byeId);
  }

  /** The state of a fresh schedule, on its padded roster. */
  lemma FreshState(teams: seq<Team>, c: nat, byeId: nat)
    requires c >= 1 && NoBye(teams)
    ensures StateOf(MakeConfig(teams, c, byeId).workingTeams, BalancedSchedule(teams, c, byeId)) ==
      if |teams| >= 2 then InProgress(0, |teams| * (|teams| - 1) / 2) else Setup
  {
    FreshCounts(teams, c, byeId);
    ExpectedOfPadded(teams, c, byeId);
    PairsExist(|teams|);
    UnplayedState(MakeConfig(teams, c, byeId).workingTeams, BalancedSchedule(teams, c, byeId), |teams| * (|teams| - 1) / 2);
  }

  /** The padded roster of `k` real teams expects `k(k-1)/2` matches. */
  lemma ExpectedOfPadded(teams: seq<Team>, c: int, byeId: nat)
    requires NoBye(teams)
    ensures ExpectedMatches(MakeConfig(teams, c, byeId).workingTeams) == |teams| * (|teams| - 1) / 2
  {
    var active := ActiveTeams(MakeConfig(teams, c, byeId).workingTeams);
    PaddingByes(teams, c, byeId);
    ActiveTeamsWithoutBye(teams);
    MulCongruent(|active|, |active| - 1, |teams|, |teams| - 1);
  }

  /** A schedule with `total` real matches, as many as the active teams
      have pairs, none of them completed, is in progress, or set up when
      there is none. */
  lemma UnplayedState(teams: seq<Team>, schedule: seq<Match>, total: nat)
    requires Count(schedule, IsRealMatch) == total == ExpectedMatches(teams)
    requires Count(schedule, IsCompletedRealMatch) == 0
    ensures StateOf(teams, schedule) == if total > 0 then InProgress(0, total) else Setup
  {
    StateClassifies(teams, schedule);
  }

  /** Some pair of `k` teams exists exactly when `k >= 2`. */
  lemma PairsExist(k: nat)
    ensures k * (k - 1) / 2 > 0 <==> k >= 2
  {
    if k >= 2 {
      MulAtLeast(k - 1, k);
    } else {
      assert k * (k - 1) == 0;
    }
  }

  /** A fresh schedule of `k` real teams holds `k(k-1)/2` real matches, none completed. */
  lemma FreshCounts(teams: seq<Team>, c: nat, byeId: nat)
    requires c >= 1 && NoBye(teams)
    ensures Count(BalancedSchedule(teams, c, byeId), IsRealMatch) == |teams| * (|teams| - 1) / 2
    ensures Count(BalancedSchedule(teams, c, byeId), IsCompletedRealMatch) == 0
  {
    var schedule := BalancedSchedule(teams, c, byeId);
    RealMatchTotal(teams, c, byeId);
    MatchesWellFormed(teams, c, byeId);
    forall i | 0 <= i < |schedule|
      ensures !IsCompletedRealMatch(schedule[i])
    {
      assert WellFormed(c)(schedule[i]);
    }
    CountNone(schedule, IsCompletedRealMatch);
  }
}
