/** The in-memory part of the tournament store (TournamentStore.swift,
    lines 27-59 and 90-122): validation, and the list operations behind
    add, update, remove, lookup and clear.  Saving to and loading from disk
    is not part of this model. */
module Store {
  import opened Counting
  import opened Model

  datatype StoreError =
    | FailedToLoad
    | FailedToSave
    | InvalidTournament(reason: string)
    | TournamentNotFound(id: nat)

  /** How a store operation ends: normally, or with the error it throws. */
  datatype Outcome = Done | Failed(error: StoreError)

  const TitleEmpty: string := "Title cannot be empty"
  const TooFewTeams: string := "Tournament must have at least 2 teams"
  const NoCourt: string := "Tournament must have at least 1 court"

  /** validate: the title is checked first, then the team count, then the courts. */
  function Validate(t: Tournament): (r: Outcome)
    ensures r.Failed? ==> r.error.InvalidTournament?
  {
    if t.title == [] then Failed(InvalidTournament(TitleEmpty))
    else if |t.teams| < 2 then Failed(InvalidTournament(TooFewTeams))
    else if t.availableCourts <= 0 then Failed(InvalidTournament(NoCourt))
    else Done
  }

  /** A tournament passes validation exactly when it has a title, at least
      two teams and at least one court, which is what the schedule
      generator needs; a failure names the first check that fails. */
  lemma ValidationOrder(t: Tournament)
    ensures Validate(t) == Done <==> t.title != [] && |t.teams| >= 2 && t.availableCourts >= 1
    ensures t.title == [] ==> Validate(t) == Failed(InvalidTournament(TitleEmpty))
    ensures t.title != [] && |t.teams| < 2 ==> Validate(t) == Failed(InvalidTournament(TooFewTeams))
    ensures t.title != [] && |t.teams| >= 2 && t.availableCourts < 1 ==> Validate(t) == Failed(InvalidTournament(NoCourt))
  {
  }

  function HasId(id: nat): Tournament -> bool
  {
    (t: Tournament) => t.id == id
  }

  /** `firstIndex(where: { $0.id == id })`. */
  function FirstWithId(ts: seq<Tournament>, id: nat): (r: Option<nat>)
    ensures r.Some? ==> (r.value < |ts| && ts[r.value].id == id &&
      forall j :: 0 <= j < r.value ==> ts[j].id != id)
    ensures r.None? ==> forall j :: 0 <= j < |ts| ==> ts[j].id != id
  {
    if ts == [] then None
    else if ts[0].id == id then Some(0)
    else
      match FirstWithId(ts[1..], id)
      case None => None
      case Some(i) => Some(i + 1)
  }

  /** `first { $0.id == id }`: the first tournament with the UUID, if any. */
  function Lookup(ts: seq<Tournament>, id: nat): (r: Option<Tournament>)
    ensures r.None? <==> forall j :: 0 <= j < |ts| ==> ts[j].id != id
    ensures r.Some? ==> (r.value.id == id &&
      exists i :: 0 <= i < |ts| && ts[i] == r.value && forall j :: 0 <= j < i ==> ts[j].id != id)
  {
    match FirstWithId(ts, id)
    case None => None
    case Some(i) => Some(ts[i])
  }

  /** The list and the outcome after one store operation. */
  datatype StoreStep = StoreStep(tournaments: seq<Tournament>, outcome: Outcome)

  /** add: validate, then append. */
  function AfterAdd(ts: seq<Tournament>, t: Tournament): StoreStep
  {
    if Validate(t).Failed? then StoreStep(ts, Validate(t))
    else StoreStep(ts + [t], Done)
  }

  /** update: validate, then replace the first tournament with the same UUID. */
  function AfterUpdate(ts: seq<Tournament>, t: Tournament): StoreStep
  {
    if Validate(t).Failed? then StoreStep(ts, Validate(t))
    else
      match FirstWithId(ts, t.id)
      case None => StoreStep(ts, Failed(TournamentNotFound(t.id)))
      case Some(i) => StoreStep(ts[i := t], Done)
  }

  /** The tournaments without UUID `id`, in their order. */
  function Without(ts: seq<Tournament>, id: nat): (r: seq<Tournament>)
    ensures forall i :: 0 <= i < |r| ==> r[i] in ts && r[i].id != id
    ensures forall i :: 0 <= i < |ts| && ts[i].id != id ==> ts[i] in r
    ensures |r| == |ts| - Count(ts, HasId(id))
  {
    FilterMembers(ts, HasId(id), false);
    FilterLength(ts, HasId(id));
    Filter(ts, HasId(id), false)
  }

  /** remove: fail when no tournament has the UUID, else drop all that have it. */
  function AfterRemove(ts: seq<Tournament>, id: nat): StoreStep
  {
    if FirstWithId(ts, id).None? then StoreStep(ts, Failed(TournamentNotFound(id)))
    else StoreStep(Without(ts, id), Done)
  }

  class TournamentStore {
    var tournaments: seq<Tournament>

    constructor()
      ensures tournaments == []
    {
      tournaments := [];
    }

    method Add(t: Tournament) returns (outcome: Outcome)
      modifies this
      ensures StoreStep(tournaments, outcome) == AfterAdd(old(tournaments), t)
    {
      outcome := Validate(t);
      if outcome.Failed? {
        return;
      }
      tournaments := tournaments + [t];
    }

    method Update(t: Tournament) returns (outcome: Outcome)
      modifies this
      ensures StoreStep(tournaments, outcome) == AfterUpdate(old(tournaments), t)
    {
      outcome := Validate(t);
      if outcome.Failed? {
        return;
      }
      var index := FirstWithId(tournaments, t.id);
      if index.None? {
        return Failed(TournamentNotFound(t.id));
      }
      tournaments := tournaments[index.value := t];
    }

    method Remove(id: nat) returns (outcome: Outcome)
      modifies this
      ensures StoreStep(tournaments, outcome) == AfterRemove(old(tournaments), id)
    {
      if FirstWithId(tournaments, id).None? {
        return Failed(TournamentNotFound(id));
      }
      tournaments := Without(tournaments, id);
      outcome := Done;
    }

    /** tournament(withId:): the first tournament with the UUID, if any. */
    function TournamentWithId(id: nat): (r: Option<Tournament>)
      reads this
      ensures r.None? <==> forall j :: 0 <= j < |tournaments| ==> tournaments[j].id != id
      ensures r.Some? ==> (r.value.id == id &&
        exists i :: 0 <= i < |tournaments| && tournaments[i] == r.value &&
          forall j :: 0 <= j < i ==> tournaments[j].id != id)
    {
      Lookup(tournaments, id)
    }

    method RemoveAll()
      modifies this
      ensures tournaments == []
    {
      tournaments := [];
    }
  }

  // ---------------------------------------------------------------------
  // What the operations do to lookups
  // ---------------------------------------------------------------------

  /** Lookup of a list with one more tournament at the end: an earlier
      tournament with the UUID still wins, so adding a duplicate UUID hides
      the new one. */
  lemma LookupAppend(ts: seq<Tournament>, t: Tournament, id: nat)
    ensures Lookup(ts + [t], id) ==
      if Lookup(ts, id).Some? then Lookup(ts, id) else if t.id == id then Some(t) else None
  {
    var grown := ts + [t];
    match FirstWithId(ts, id)
    case Some(i) =>
      assert grown[i] == ts[i];
      FirstIsFirst(grown, id, i);
    case None =>
      if t.id == id {
        FirstIsFirst(grown, id, |ts|);
      }
  }

  /** An index with the UUID and none before it is the first index. */
  lemma FirstIsFirst(ts: seq<Tournament>, id: nat, i: nat)
    requires i < |ts| && ts[i].id == id
    requires forall j :: 0 <= j < i ==> ts[j].id != id
    ensures FirstWithId(ts, id) == Some(i)
  {
    var r := FirstWithId(ts, id);
    assert r.Some?;
  }

  /** A valid tournament added to the store is appended; a rejected one
      leaves the list as it was.  Either way every lookup of an UUID
      already present answers as before, and the new UUID is found. */
  lemma AddEffect(ts: seq<Tournament>, t: Tournament, id: nat)
    ensures AfterAdd(ts, t).outcome == Validate(t)
    ensures Validate(t) == Done ==> (AfterAdd(ts, t).tournaments == ts + [t] &&
      |AfterAdd(ts, t).tournaments| == |ts| + 1 &&
      AfterAdd(ts, t).tournaments[|ts|] == t && Lookup(AfterAdd(ts, t).tournaments, t.id).Some?)
    ensures Validate(t) != Done ==> AfterAdd(ts, t).tournaments == ts
    ensures Lookup(ts, id).Some? ==> Lookup(AfterAdd(ts, t).tournaments, id) == Lookup(ts, id)
  {
    LookupAppend(ts, t, id);
    LookupAppend(ts, t, t.id);
  }

  /** A valid update of a present UUID replaces exactly the first
      tournament with it: the length and every other position stay, and a
      lookup now finds the new version; an update of an absent UUID fails
      with tournamentNotFound and changes nothing. Validation comes first. */
  lemma UpdateEffect(ts: seq<Tournament>, t: Tournament)
    ensures Validate(t).Failed? ==> AfterUpdate(ts, t) == StoreStep(ts, Validate(t))
    ensures Validate(t) == Done && Lookup(ts, t.id).None? ==>
      AfterUpdate(ts, t) == StoreStep(ts, Failed(TournamentNotFound(t.id)))
    ensures Validate(t) == Done && Lookup(ts, t.id).Some? ==>
      var after := AfterUpdate(ts, t).tournaments;
      AfterUpdate(ts, t).outcome == Done && |after| == |ts| &&
      Lookup(after, t.id) == Some(t) &&
      forall j :: 0 <= j < |ts| && j != FirstWithId(ts, t.id).value ==> after[j] == ts[j]
  {
    if Validate(t) == Done && Lookup(ts, t.id).Some? {
      var i := FirstWithId(ts, t.id).value;
      var after := ts[i := t];
      FirstIsFirst(after, t.id, i);
    }
  }

  /** An update of a present UUID leaves the lookup of every other UUID alone. */
  lemma UpdateKeepsOthers(ts: seq<Tournament>, t: Tournament, id: nat)
    requires id != t.id
    ensures Lookup(AfterUpdate(ts, t).tournaments, id) == Lookup(ts, id)
  {
    if Validate(t) == Done && FirstWithId(ts, t.id).Some? {
      var i := FirstWithId(ts, t.id).value;
      var after := ts[i := t];
      match FirstWithId(ts, id)
      case Some(k) =>
        assert after[k] == ts[k];
        FirstIsFirst(after, id, k);
      case None =>
        assert forall j :: 0 <= j < |after| ==> after[j].id != id;
    }
  }

  /** Removing a present UUID drops every tournament with it and keeps the
      rest; it fails with tournamentNotFound, changing nothing, when the
      UUID is absent. */
  lemma RemoveEffect(ts: seq<Tournament>, id: nat)
    ensures Lookup(ts, id).None? ==> AfterRemove(ts, id) == StoreStep(ts, Failed(TournamentNotFound(id)))
    ensures Lookup(ts, id).Some? ==> (AfterRemove(ts, id).outcome == Done &&
      |AfterRemove(ts, id).tournaments| < |ts|)
    ensures Lookup(AfterRemove(ts, id).tournaments, id).None?
  {
    if Lookup(ts, id).Some? {
      var i := FirstWithId(ts, id).value;
      CountPrefixGrows(ts, i, |ts|, HasId(id));
      TakeAll(ts);
    }
  }

  /** A second removal of the same UUID fails. */
  lemma RemoveTwiceFails(ts: seq<Tournament>, id: nat)
    ensures AfterRemove(AfterRemove(ts, id).tournaments, id).outcome == Failed(TournamentNotFound(id))
  {
    RemoveEffect(ts, id);
  }

  /** Removal keeps the other tournaments in their order: it works
      piecewise on a split list. */
  lemma RemoveKeepsOrder(a: seq<Tournament>, b: seq<Tournament>, id: nat)
    ensures Without(a + b, id) == Without(a, id) + Without(b, id)
  {
    FilterAppend(a, b, HasId(id), false);
  }

  /** Removal leaves the lookup of every other UUID alone. */
  lemma {:induction false} RemoveKeepsOthers(ts: seq<Tournament>, id: nat, other: nat)
    requires other != id
    ensures Lookup(Without(ts, id), other) == Lookup(ts, other)
  {
    if ts != [] {
      var init, t := ts[..|ts| - 1], ts[|ts| - 1];
      RemoveKeepsOthers(init, id, other);
      assert ts == init + [t];
      LookupAppend(init, t, other);
      var rest := Without(init, id);
      assert Without(ts, id) == rest + (if t.id == id then [] else [t]);
      if t.id != id {
        LookupAppend(rest, t, other);
      } else {
        assert rest + [] == rest;
      }
    }
  }
}
