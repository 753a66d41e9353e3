# RoundRobinPro in Dafny

A verified model of the core of RoundRobinPro, an app that organises
round-robin tournaments. The model covers three parts.

- **The schedule generator** (`generateBalancedSchedule` and its helpers).
  - The roster is made even by appending a team named "Bye".
  - Each theoretical round is paired by the circle method and shifted cyclically.
  - Its pairings are split into real and bye pairings and packed into
    sessions of at most `availableCourts` real matches. Each session that
    holds real matches gets a round number of its own.
  - The index array is rotated between rounds.
- **The tournament's state and standings.**
  - `updateState` classifies a schedule as set up, in progress or completed.
  - `calculateStandings` counts wins and losses in a dictionary keyed by
    team UUID and sorts the teams by wins.
  - `updateSchedule` pads the roster, regenerates the matches and recomputes the state.
- **The in-memory tournament store.** It covers validation, add, update,
  remove, lookup by UUID and clearing the list.

The files:

- **`model.dfy`** holds the entities: `Team`, `Match`, `TournamentState` and
  `Tournament`, the active teams, bye matches, and team equality by name.
- **`circle.dfy`** holds the circle method.
  - `GenerateRoundPairings`, `RotatePairings` and the in-place index rotation
    `RotateIndices` on an array.
  - The closed form of the index arrangement after `r` rotations.
  - The number-theoretic core: two teams meet in exactly one of the
    `n - 1` rounds.
- **`sessions.dfy`** holds the roster padding (`MakeConfig`), `SeparatePairings`,
  `CreateSessionMatches` and `ProcessRound`, each a method proved equal to a
  specification function. It also has the lemmas on the sessions they produce.
- **`schedule.dfy`** holds the driver `GenerateBalancedSchedule` and the
  function `BalancedSchedule` it is proved to compute.
- **`fairness.dfy`** proves the whole-schedule counting properties: every pair
  meets once, every team has one bye on an odd roster, the number of real
  matches, and court bounds.
- **`rounds.dfy`** proves the round numbering:
  - round numbers run from 1 without gaps;
  - every round holds between one real match and `availableCourts` real matches;
  - with one court, every round holds exactly one real match.
- **`standings.dfy`** holds `CalculateStandings`, `UpdateState` and `UpdateSchedule`.
- **`store.dfy`** holds the `TournamentStore` class, whose `tournaments` list is
  changed in place by its methods.
- **`counting.dfy`** and **`arith.dfy`** hold generic lemmas: counting and
  filtering sequences, and modular arithmetic.

UUIDs are natural numbers. The UUID that `Team(name: "Bye")` would draw at
random is a parameter, `byeId`. The generator divides by `availableCourts`,
so it requires `availableCourts >= 1`, which `validate` guarantees for every
stored tournament. The code rounds a floating-point ceiling of real pairings
over courts; the model uses the integer ceiling `(r + c - 1) / c`.

On one point the code and its comment disagree. The comment in
`createSessionMatches` says the Bye is always `team1`. The swap in the code
moves a Bye found in `team1` to `team2`, so every bye match has the real team
as `team1` and the Bye as `team2`. The model follows the code (`ByeSecond`,
`PairMatch`). Nothing else depends on the side: `isByeMatch` looks at both.

## Model

| member | source | states |
|---|---|---|
| Model.ActiveTeams | RoundRobinPro/Models/Tournament.swift:27 | the active teams are exactly the roster's teams not named "Bye", and there are as many as the roster has non-Bye entries |
| Model.ActiveTeamsWithoutBye | RoundRobinPro/Models/Tournament.swift:27 | a roster without a Bye is its own list of active teams |
| Model.IsByeMatch | RoundRobinPro/Models/Tournament.swift:167-169 | a match is a bye match exactly when either side is named "Bye" |
| Model.ByeMatchRespectsSameTeam | RoundRobinPro/Models/Tournament.swift:167-169 | being a bye match does not depend on which side the Bye is on, agrees for matches whose sides are equal teams under the name-only team equality, and is the complement of being a real match |
| Model.SameTeam | RoundRobinPro/Models/Tournament.swift:144-146 | two teams are equal exactly when their names are equal, whatever their UUIDs and records |
| Model.SameTeamIgnoresRecord | RoundRobinPro/Models/Tournament.swift:144-146 | team equality looks at names only: a team equals itself with another UUID or record; the relation is symmetric and transitive; equal teams agree on being the Bye |
| Sessions.MakeConfig | RoundRobinPro/Models/Tournament.swift:218-230 | the working roster is the input teams in order, plus one appended Bye exactly when their count is odd; it is even; totalTeams, idealRounds and matchesPerRound are its size, size - 1 and size / 2 |
| Sessions.PaddingIdempotent | RoundRobinPro/Models/Tournament.swift:196-201 | padding an already padded roster adds no second Bye |
| Sessions.PaddingByes | RoundRobinPro/Models/Tournament.swift:218-229 | padding adds one Bye entry for an odd roster and none for an even one, and leaves the active teams unchanged |
| Circle.GenerateRoundPairings | RoundRobinPro/Models/Tournament.swift:239-252 | the loop builds exactly the circle pairing: index 0 against the last index, position i against position n-1-i, oriented by the round's parity; it has matchesPerRound pairs |
| Circle.OddRoundSwaps | RoundRobinPro/Models/Tournament.swift:244-248 | on an odd round every pair is the swap of the even-round pair at the same place |
| Circle.RoundPairsAreProper | RoundRobinPro/Models/Tournament.swift:239-252 | over a permutation of 0..n-1, every pair holds two distinct indices below n |
| Circle.EachIndexInOnePairing | RoundRobinPro/Models/Tournament.swift:239-252 | over a permutation of 0..n-1, every index occurs in exactly one pair of the round |
| Circle.MeetWhenMirrored | RoundRobinPro/Models/Tournament.swift:239-252 | two indices are paired in a round exactly when their positions in the index array add up to n - 1 |
| Circle.RotatePairings | RoundRobinPro/Models/Tournament.swift:351-356 | the pairings shifted cyclically left by idealRound % matchesPerRound; the result has as many pairings as the input |
| Circle.RotatePairingsIsCyclic | RoundRobinPro/Models/Tournament.swift:351-356 | the shifted list is the input when idealRound % matchesPerRound is 0; otherwise element i is input element (i + shift) mod length; the multiset of pairs is unchanged |
| Circle.CountRotateLeft | RoundRobinPro/Models/Tournament.swift:355 | a cyclic shift keeps the number of pairs satisfying any predicate |
| Circle.RotateIndices | RoundRobinPro/Models/Tournament.swift:386-387 | removing the last index and inserting it at position 1 turns the array into the rotation of its old contents |
| Circle.RotatedAt | RoundRobinPro/Models/Tournament.swift:386-387 | after the rotation, element k is the old element at position Back(n, k): 0 stays, 1 takes the old last, the rest move one step right |
| Circle.RotationKeepsPermutation | RoundRobinPro/Models/Tournament.swift:363-387 | the rotation keeps the index array a permutation of 0..n-1 with index 0 in front |
| Circle.ArrangementIsPermutation | RoundRobinPro/Models/Tournament.swift:363-387 | the index array before every theoretical round is a permutation of 0..n-1 with 0 in front |
| Circle.ArrangementClosedForm | RoundRobinPro/Models/Tournament.swift:363-387 | after r rotations, position j > 0 holds 1 + (j - 1 - r) mod (n - 1) |
| Circle.MeetingRoundUnique | RoundRobinPro/Models/Tournament.swift:366-387 | for an even roster, two distinct indices meet in exactly one of the n - 1 theoretical rounds, the one MeetingRound names |
| Circle.RoundJoins | RoundRobinPro/Models/Tournament.swift:366-387 | the pairing of round r joins two distinct indices once if r is their meeting round and not at all otherwise |
| Sessions.SeparatePairings | RoundRobinPro/Models/Tournament.swift:255-271 | the real pairings are, in order, the pairings with no Bye team, and the bye pairings are the rest, in order |
| Sessions.SeparationIsPartition | RoundRobinPro/Models/Tournament.swift:255-271 | together the two lists hold every pairing once; all real pairings and no bye pairing involve only real teams |
| Sessions.PairMatch | RoundRobinPro/Models/Tournament.swift:284-304 | a match holds the pairing's two teams; it is a bye match exactly when the pairing has a Bye; a Bye never sits in team1 opposite a real team; bye matches are on court 0 and real ones on court (count of earlier real matches) mod courts + 1; round as given; scores 0, not completed |
| Sessions.CreateSessionMatches | RoundRobinPro/Models/Tournament.swift:274-308 | the loop yields one match per pairing, in order, with the court counter advanced only past real matches |
| Sessions.SessionMatchAt | RoundRobinPro/Models/Tournament.swift:283-304 | match i of a session is built from pairing i with the count of real pairings before it as its court index |
| Sessions.SessionShape | RoundRobinPro/Models/Tournament.swift:274-308 | every match of a session has the session's round, a court of 0 (bye) or 1..courts (real), zero scores, is unplayed and keeps any Bye in team2 |
| Sessions.SessionCourts | RoundRobinPro/Models/Tournament.swift:293-297 | a session of at most `courts` real pairings puts its real matches on courts 1, 2, 3, … in order |
| Sessions.SessionCount | RoundRobinPro/Models/Tournament.swift:274-308 | the matches of a session satisfying a match predicate are as many as the pairings satisfying the corresponding pairing predicate |
| Sessions.SessionsNeededIsCeiling | RoundRobinPro/Models/Tournament.swift:321 | the number of sessions with real pairings is 0 for none and the ceiling of real / courts otherwise |
| Sessions.SessionsNeededBounds | RoundRobinPro/Models/Tournament.swift:321-328 | a session index is below that count exactly when its slice starts inside the real pairings, and the sessions together reach past the last real pairing |
| Sessions.SessionAt | RoundRobinPro/Models/Tournament.swift:322-328 | every session's slice starts inside the real pairings; it is non-empty exactly for the sessions counted by the ceiling; the only other session is session 0 of a bye-only round |
| Sessions.SessionSlice | RoundRobinPro/Models/Tournament.swift:326-328 | a session's real pairings are the consecutive run of `courts` real pairings (fewer in the last session) starting at session × courts |
| Sessions.SessionListFlattens | RoundRobinPro/Models/Tournament.swift:322-331 | read in session order, the sessions hold the bye pairings first, in session 0, then all real pairings in order: none dropped, repeated or added |
| Sessions.ProcessRound | RoundRobinPro/Models/Tournament.swift:311-347 | the session loop returns the concatenated matches of its sessions and the counter advanced by the number of sessions holding real pairings |
| Sessions.PlaySessions | RoundRobinPro/Models/Tournament.swift:325-345 | after the loop the matches are those of every session, each numbered with the counter at its start, and the counter moved by the sessions with real pairings |
| Sessions.RoundMatches | RoundRobinPro/Models/Tournament.swift:311-347 | the next round number is never below the one the round started with |
| Sessions.RoundCount | RoundRobinPro/Models/Tournament.swift:311-347 | a round's matches satisfying a predicate are as many as its pairings satisfying the corresponding one: the sessions drop, repeat and invent no pairing |
| Rounds.SeparatedRounds | RoundRobinPro/Models/Tournament.swift:321-345 | every round number the sessions use holds between 1 and `courts` real matches, and no other round number holds any |
| Rounds.RoundRounds | RoundRobinPro/Models/Tournament.swift:311-347 | the real matches of a processed round are numbered roundCounter .. nextRound - 1, each number with 1 to `courts` real matches |
| Rounds.RoundRange | RoundRobinPro/Models/Tournament.swift:311-347 | every match of a processed round, bye matches included, has a round number between roundCounter and nextRound |
| Rounds.OneCourtRound | RoundRobinPro/Models/Tournament.swift:321-344 | with one court, a processed round advances the counter by exactly its number of real pairings |
| Rounds.SessionsRounds | RoundRobinPro/Models/Tournament.swift:325-345 | the real matches numbered r are exactly the real pairings of session r - roundCounter |
| Schedule.RoundOf | RoundRobinPro/Models/Tournament.swift:368-383 | one iteration of the driver never moves the round counter backwards |
| Schedule.ScheduleUpTo | RoundRobinPro/Models/Tournament.swift:362-388 | the round counter after any number of iterations is at least 1 |
| Schedule.ScheduleRound | RoundRobinPro/Models/Tournament.swift:366-388 | one loop iteration extends the schedule by one theoretical round and leaves the index array rotated one step further |
| Schedule.GenerateBalancedSchedule | RoundRobinPro/Models/Tournament.swift:358-391 | the driver computes BalancedSchedule: empty for no teams, else n - 1 theoretical rounds over the padded roster with the round counter starting at 1 |
| Fairness.EveryPairMeetsOnce | RoundRobinPro/Models/Tournament.swift:358-391 | any two distinct real teams meet in exactly one match of the schedule |
| Fairness.ByeOncePerTeam | RoundRobinPro/Models/Tournament.swift:358-391 | on an odd roster every real team is paired with the Bye exactly once |
| Fairness.NoByeMatchWhenEven | RoundRobinPro/Models/Tournament.swift:358-391 | on an even roster the schedule has no bye match |
| Fairness.MatchesPerTeam | RoundRobinPro/Models/Tournament.swift:358-391 | every real team appears in k - 1 matches on an even roster of k teams and in k (one of them its bye) on an odd roster |
| Fairness.RealMatchTotal | RoundRobinPro/Models/Tournament.swift:358-391 | a schedule of k real teams has exactly k(k-1)/2 real matches |
| Fairness.ScheduleLength | RoundRobinPro/Models/Tournament.swift:358-391 | the schedule has n(n-1)/2 matches for the padded size n, and it is empty exactly when there are no teams |
| Fairness.MatchesWellFormed | RoundRobinPro/Models/Tournament.swift:274-391 | every scheduled match is unplayed with zero scores; a bye match is on court 0 with the Bye in team2; a real match is on a court in 1..availableCourts |
| Fairness.HoldsOnce | RoundRobinPro/Models/Tournament.swift:366-387 | every index is in exactly one pair of each theoretical round |
| Fairness.JoinsOverRounds | RoundRobinPro/Models/Tournament.swift:366-387 | over the n - 1 theoretical rounds two distinct indices are paired exactly once |
| Fairness.RealOverRounds | RoundRobinPro/Models/Tournament.swift:366-387 | over all rounds, the real pairings number (n-1)(n/2 - 1) when the last roster entry is the Bye and (n-1)(n/2) otherwise |
| Fairness.BalancedTally | RoundRobinPro/Models/Tournament.swift:358-391 | the schedule's matches satisfying a predicate are as many as the theoretical rounds' pairings satisfying the corresponding pairing predicate |
| Fairness.ScheduleCount | RoundRobinPro/Models/Tournament.swift:362-388 | the same correspondence after any number of driver iterations |
| Fairness.RosterFacts | RoundRobinPro/Models/Tournament.swift:218-230 | a non-empty roster of distinct real names pads to an even roster of at least 2 with distinct names, equal to the input when even and with the Bye last when odd |
| Rounds.ScheduleRounds | RoundRobinPro/Models/Tournament.swift:362-388 | after any number of iterations the real matches are numbered 1 .. counter - 1, each number with 1 to `courts` real matches, and no match carries a number above the counter |
| Rounds.RoundNumbering | RoundRobinPro/Models/Tournament.swift:342-391 | round numbers start at 1 and run without gaps up to the last one; each round holds between 1 and availableCourts real matches; no real match lies outside that range; every match's round is within 1 .. the final counter |
| Rounds.OneCourtSchedule | RoundRobinPro/Models/Tournament.swift:321-388 | with one court the round counter ends at one more than the number of real matches |
| Rounds.OneCourtOneMatchPerRound | RoundRobinPro/Models/Tournament.swift:321-391 | with one court and k real teams there are k(k-1)/2 rounds of exactly one real match each (6 rounds for 4 teams) |
| Standings.SeedEntries | RoundRobinPro/Models/Tournament.swift:105-108 | every entry of the initial dictionary is an active team filed under its own UUID |
| Standings.SeedOfDistinct | RoundRobinPro/Models/Tournament.swift:105-108 | with distinct UUIDs, each active team is the dictionary entry under its UUID |
| Standings.CreditAt | RoundRobinPro/Models/Tournament.swift:111-121 | one match adds one win to the UUID that won it and one loss to the UUID that lost it, only for a completed match with non-negative unequal scores; absent UUIDs are ignored |
| Standings.RecordTally | RoundRobinPro/Models/Tournament.swift:111-121 | after all matches, each team's entry has its initial wins plus the matches it won and its initial losses plus the matches it lost |
| Standings.KeyOrder | RoundRobinPro/Models/Tournament.swift:124 | the order in which the dictionary's values are read lists each key exactly once |
| Standings.SortByWins | RoundRobinPro/Models/Tournament.swift:124 | the sorted list is a permutation of its input with wins non-increasing from each entry to the next |
| Standings.StandingsOf | RoundRobinPro/Models/Tournament.swift:102-124 | the standings are a permutation of the credited table and are sorted by wins, highest first |
| Standings.CalculateStandings | RoundRobinPro/Models/Tournament.swift:102-124 | the two dictionary loops and the sort compute StandingsOf |
| Standings.StandingsEntries | RoundRobinPro/Models/Tournament.swift:102-124 | every team in the standings is an active team (never the Bye) with its wins and losses credited from the matches |
| Standings.StandingsOnePerTeam | RoundRobinPro/Models/Tournament.swift:102-124 | each active team's credited entry appears exactly once in the standings |
| Standings.UpdateState | RoundRobinPro/Models/Tournament.swift:85-99 | the tournament's state becomes StateOf its teams and schedule; every other field is unchanged |
| Standings.StateClassifies | RoundRobinPro/Models/Tournament.swift:85-99 | the state is set up exactly when there is no real match; completed exactly when all real matches are completed and they number k(k-1)/2 for k active teams; otherwise in progress with the completed and total counts of real matches |
| Standings.CompletedMeansAllPlayed | RoundRobinPro/Models/Tournament.swift:93-96 | in a completed tournament every real match is completed; the winner exists exactly when the standings are non-empty, and it is their first entry, whose wins no team exceeds |
| Standings.RealCounts | RoundRobinPro/Models/Tournament.swift:86-88 | the filtered list of non-bye matches has as many matches and as many completed ones as the real matches counted over the schedule |
| Standings.Scheduled | RoundRobinPro/Models/Tournament.swift:196-208 | a rescheduled tournament keeps its UUID, title and courts, and its roster is the old roster plus a Bye exactly when the old one was odd |
| Standings.UpdateSchedule | RoundRobinPro/Models/Tournament.swift:196-208 | the method pads the roster, regenerates the schedule over it and recomputes the state, which is what Scheduled describes |
| Standings.UpdateScheduleIdempotent | RoundRobinPro/Models/Tournament.swift:196-208 | updating the schedule a second time changes nothing: no second Bye, the same matches and the same state |
| Standings.ScheduleOfPadded | RoundRobinPro/Models/Tournament.swift:198-204 | generating from the padded roster gives the same schedule as from the original roster |
| Standings.FreshScheduleState | RoundRobinPro/Models/Tournament.swift:196-208 | right after scheduling k distinct real teams the tournament is in progress with 0 of k(k-1)/2 matches played when k >= 2, and set up otherwise |
| Store.Validate | RoundRobinPro/Models/TournamentStore.swift:49-59 | validation fails only with an invalid-tournament error |
| Store.ValidationOrder | RoundRobinPro/Models/TournamentStore.swift:49-59 | validation passes exactly for a non-empty title, at least 2 teams and at least 1 court; otherwise it fails with the message of the first failed check, in the order title, teams, courts |
| Store.Lookup | RoundRobinPro/Models/TournamentStore.swift:116 | the result is none exactly when no tournament has the UUID, and otherwise the first tournament with it |
| Store.FirstWithId | RoundRobinPro/Models/TournamentStore.swift:98 | the index found is that of the first tournament with the UUID, or none when there is none |
| Store.Without | RoundRobinPro/Models/TournamentStore.swift:109 | removal keeps exactly the tournaments with another UUID, and the count falls by the number with this UUID |
| Store.TournamentStore.constructor | RoundRobinPro/Models/TournamentStore.swift:11-12 | a new store holds no tournaments |
| Store.TournamentStore.Add | RoundRobinPro/Models/TournamentStore.swift:90-94 | the list and outcome after add are those of AfterAdd: validate, then append |
| Store.TournamentStore.Update | RoundRobinPro/Models/TournamentStore.swift:96-103 | the list and outcome after update are those of AfterUpdate: validate, fail when the UUID is absent, else replace the first match |
| Store.TournamentStore.Remove | RoundRobinPro/Models/TournamentStore.swift:105-111 | the list and outcome after remove are those of AfterRemove: fail when the UUID is absent, else drop every tournament with it |
| Store.TournamentStore.TournamentWithId | RoundRobinPro/Models/TournamentStore.swift:115-117 | lookup returns none exactly when no tournament has the UUID, else the first tournament with it |
| Store.TournamentStore.RemoveAll | RoundRobinPro/Models/TournamentStore.swift:119-122 | the list is empty afterwards |
| Store.AddEffect | RoundRobinPro/Models/TournamentStore.swift:90-93 | add reports the validation outcome; on success the tournament is appended at the end, the length grows by one and a lookup of its UUID succeeds; on failure the list is unchanged; a lookup of a UUID already present answers as before |
| Store.UpdateEffect | RoundRobinPro/Models/TournamentStore.swift:96-101 | update fails with the validation error first, then with not-found for an absent UUID, both leaving the list unchanged; otherwise exactly the first tournament with the UUID is replaced and the length kept |
| Store.UpdateKeepsOthers | RoundRobinPro/Models/TournamentStore.swift:96-101 | update leaves the lookup of every other UUID unchanged |
| Store.RemoveEffect | RoundRobinPro/Models/TournamentStore.swift:105-109 | remove of an absent UUID fails with not-found and changes nothing; otherwise it succeeds and no tournament with the UUID remains |
| Store.RemoveTwiceFails | RoundRobinPro/Models/TournamentStore.swift:105-109 | a second remove of the same UUID fails with not-found |
| Store.RemoveKeepsOrder | RoundRobinPro/Models/TournamentStore.swift:109 | removal keeps the remaining tournaments in their original order (it distributes over concatenation) |
| Store.RemoveKeepsOthers | RoundRobinPro/Models/TournamentStore.swift:109 | removal leaves the lookup of every other UUID unchanged |

## Left out

- Persistence is not modelled: `fileURL`, `load`, `save`, JSON encoding, the dispatch queue, `async` and `@MainActor`. The store operations are synchronous. When `save` fails after `add`, `update`, `remove` or `removeAll` has changed the list, the in-memory change stays and the encoder's or file system's own error is thrown; `StoreError.failedToSave` is declared but never thrown. The model does not cover that error path.
- Floating point is not modelled: `courtsAsDouble` and `TournamentState.progress`. The ceiling at line 321 of Tournament.swift is replaced by integer ceiling division, which agrees with it for every count and court number of realistic size.
- UUID generation, `Codable`, `Match.description`, the sample data and `emptyTournament` are not modelled. UUIDs are natural numbers. The Bye's fresh UUID is the parameter `byeId`. Match UUIDs are not represented.
- `Tournament.init` is not modelled: it maps names to teams and runs `updateState` when given matches. `UpdateState` covers that call.
- `TournamentState.isCompleted` is Dafny's `Completed?` discriminator. The hand-written `==` on `TournamentState` is not modelled; the model uses structural equality, while the Swift version compares the winner and the standings with the name-only team equality.
- Schedule.GenerateBalancedSchedule: requires `availableCourts >= 1`, because the code divides by it at lines 293 and 321 of Tournament.swift and `validate` rejects a tournament without a court. Zero or negative court counts are not modelled. The same holds for ProcessRound, CreateSessionMatches, Scheduled and UpdateSchedule.
- Model.SameTeam: compares names as Dafny strings, code point by code point. Swift's `String ==` in the team `==` compares by Unicode canonical equivalence, so two names such as "\u{E9}" and "e\u{301}" are equal in the app but not in the model. `DistinctNames` in the fairness lemmas likewise means distinct code-point sequences. `IsBye` is unaffected, because "Bye" has no other canonical form.
- Fairness.EveryPairMeetsOnce: assumes real teams with distinct names and no team named "Bye" among them. The app identifies teams and byes by name, and its behaviour with duplicate names or a real team called "Bye" is left unspecified. The same hypotheses apply to ByeOncePerTeam, MatchesPerTeam and FreshScheduleState; RealMatchTotal and NoByeMatchWhenEven need only the absence of a "Bye".
- Standings.StandingsOf: reads the dictionary's values in order of the teams' first appearance. Swift's dictionary order is unspecified and its sort is not stable, so the contract states only what holds for every order: a permutation of the credited table, sorted by wins. The order among teams with equal wins is not specified.
- Standings.CalculateStandings: the model's sort is an insertion sort, not Swift's `sorted`. Only the result's properties, a permutation sorted by wins, are claimed.
- Store.Validate: the error messages are the source's strings, but `errorDescription`, which formats them for display, is not modelled.
