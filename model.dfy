/** The records of a round-robin tournament: teams, matches, the tournament
    itself and its state (Tournament.swift, lines 10-191).  UUIDs are
    abstract natural numbers. */
module Model {
  import opened Counting

  datatype Option<T> = None | Some(value: T)

  /** A team.  `id` stands for the team's UUID. */
  datatype Team = Team(id: nat, name: string, wins: int, losses: int)

  /** The reserved name of the placeholder that evens out an odd roster. */
  const ByeName: string := "Bye"

  predicate IsBye(t: Team)
  {
    t.name == ByeName
  }

  /** The placeholder team appended to an odd roster; `id` is its fresh UUID. */
  function ByeTeam(id: nat): Team
  {
    Team(id, ByeName, 0, 0)
  }

  /** Team equality as the source defines it (`static func ==`): by name only. */
  predicate SameTeam(a: Team, b: Team)
  {
    a.name == b.name
  }

  /** `SameTeam` is an equivalence that ignores the id and the running
      win/loss counts: the record of a team and a renumbered copy with other
      counts compare equal. */
  lemma SameTeamIgnoresRecord(a: Team, b: Team, c: Team, id: nat, wins: int, losses: int)
    ensures SameTeam(a, a.(id := id, wins := wins, losses := losses))
    ensures SameTeam(a, b) ==> SameTeam(b, a)
    ensures SameTeam(a, b) && SameTeam(b, c) ==> SameTeam(a, c)
    ensures SameTeam(a, b) ==> (IsBye(a) <==> IsBye(b))
  {
  }

  /** A match.  The source's per-match UUID is not modelled. */
  datatype Match = Match(
    team1: Team,
    team2: Team,
    team1Score: int,
    team2Score: int,
    courtNumber: int,
    round: int,
    isCompleted: bool)

  predicate IsByeMatch(m: Match)
  {
    IsBye(m.team1) || IsBye(m.team2)
  }

  /** Being a bye match depends on neither the order of the two sides nor
      anything but the teams' names: matches whose sides are equal teams
      (in either order) agree on it. */
  lemma ByeMatchRespectsSameTeam(m: Match, m': Match)
    ensures IsByeMatch(m) <==> IsByeMatch(m.(team1 := m.team2, team2 := m.team1))
    ensures (SameTeam(m.team1, m'.team1) && SameTeam(m.team2, m'.team2)) ||
            (SameTeam(m.team1, m'.team2) && SameTeam(m.team2, m'.team1)) ==>
      (IsByeMatch(m) <==> IsByeMatch(m'))
    ensures IsByeMatch(m) <==> !IsRealMatch(m)
  {
  }

  predicate IsRealMatch(m: Match)
  {
    !IsByeMatch(m)
  }

  predicate IsCompletedRealMatch(m: Match)
  {
    !IsByeMatch(m) && m.isCompleted
  }

  /** The teams of a roster that are not the Bye placeholder, in order. */
  function ActiveTeams(teams: seq<Team>): (active: seq<Team>)
    ensures forall i :: 0 <= i < |active| ==> active[i] in teams && !IsBye(active[i])
    ensures forall i :: 0 <= i < |teams| && !IsBye(teams[i]) ==> teams[i] in active
    ensures |active| == |teams| - Count(teams, IsBye)
  {
    FilterLength(teams, IsBye);
    FilterMembers(teams, IsBye, false);
    Filter(teams, IsBye, false)
  }

  /** With no Bye on the roster, every team is active. */
  lemma ActiveTeamsWithoutBye(teams: seq<Team>)
    requires forall i :: 0 <= i < |teams| ==> !IsBye(teams[i])
    ensures ActiveTeams(teams) == teams
  {
    CountNone(teams, IsBye);
    var active := ActiveTeams(teams);
    assert |active| == |teams|;
    FilterKeepsAll(teams, IsBye, false);
  }

  lemma {:induction false} FilterKeepsAll<T>(s: seq<T>, q: T -> bool, keep: bool)
    requires forall i :: 0 <= i < |s| ==> q(s[i]) == keep
    ensures Filter(s, q, keep) == s
  {
    if s != [] {
      FilterKeepsAll(s[..|s| - 1], q, keep);
    }
  }

  datatype TournamentState =
    | Setup
    | InProgress(completedMatches: int, totalMatches: int)
    | Completed(winner: Option<Team>, finalStandings: seq<Team>)

  datatype Tournament = Tournament(
    id: nat,
    title: string,
    teams: seq<Team>,
    schedule: seq<Match>,
    availableCourts: int,
    state: TournamentState)
}
