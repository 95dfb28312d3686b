/**
 The goal routes over an abstract store.  The store is the goal
 collection in its natural (insertion) order; the unique index on
 (userId, date) is the invariant `GoalsUniqueByUserDate`, and an insert
 or update that would break it fails with a duplicate key, which create
 reports as `DuplicateDate` and update as `ServerError`.
 */
module GoalStore {
  import opened Wrappers
  import opened Records
  import opened Validation
  import opened Responses
  import Seqs

  datatype Store = Store(goals: seq<Goal>, nextId: RecordId)
  {
    /** Ids are distinct and below `nextId`, every goal meets the schema,
        and no two goals share a user and a date. */
    predicate Valid()
    {
      && (forall i :: 0 <= i < |goals| ==> goals[i].id < nextId && GoalSchemaValid(goals[i]))
      && (forall i, j :: 0 <= i < j < |goals| ==> goals[i].id != goals[j].id)
      && GoalsUniqueByUserDate(goals)
    }
  }

  /** Position of the goal with this id owned by `user`, or `|goals|`. */
  function IndexOwned(goals: seq<Goal>, user: UserId, id: RecordId): (k: nat)
    ensures k <= |goals|
    ensures k < |goals| ==> goals[k].id == id && goals[k].userId == user
    ensures k == |goals| <==> forall i :: 0 <= i < |goals| ==> !(goals[i].id == id && goals[i].userId == user)
  {
    Seqs.FindFirst(goals, (g: Goal) => g.id == id && g.userId == user)
  }

  /** Does `user` already have a goal at exactly this date? */
  predicate HasGoalOn(goals: seq<Goal>, user: UserId, date: Instant)
  {
    exists i :: 0 <= i < |goals| && goals[i].userId == user && goals[i].date == date
  }

  /** Does a goal other than the one at position `k` belong to `owner`
      at exactly this date? */
  predicate TakenByOther(goals: seq<Goal>, k: nat, owner: UserId, date: Instant)
  {
    exists j :: 0 <= j < |goals| && j != k && goals[j].userId == owner && goals[j].date == date
  }

  /** GET /goals: the caller's goals, latest date first. */
  function List(s: Store, user: UserId): (r: seq<Goal>)
    ensures forall g :: g in r <==> g in s.goals && g.userId == user
    ensures forall i, j :: 0 <= i < j < |r| ==> r[i].date >= r[j].date
    ensures multiset(r) == multiset(Seqs.Filter(s.goals, (g: Goal) => g.userId == user))
  {
    var mine := Seqs.Filter(s.goals, (g: Goal) => g.userId == user);
    Seqs.FilterMembers(s.goals, (g: Goal) => g.userId == user);
    var r := Seqs.SortBy(mine, (g: Goal) => -g.date);
    assert forall g :: g in r <==> g in mine by {
      forall g ensures g in r <==> g in mine {
        assert g in r <==> g in multiset(r);
      }
    }
    r
  }

  /** GET /goals/:date: the caller's goal at exactly that instant.  A date
      that does not parse makes the store's cast fail. */
  function GetByDate(s: Store, user: UserId, date: Option<Instant>): (r: Response<Goal>)
    ensures r.Ok? || r.NotFound? || r.ServerError?
    ensures r.ServerError? <==> date.None?
    ensures r.Ok? ==> r.value in s.goals && r.value.userId == user && r.value.date == date.value
    ensures r.NotFound? <==> date.Some? && !HasGoalOn(s.goals, user, date.value)
  {
    if date.None? then ServerError
    else
      var k := Seqs.FindFirst(s.goals, (g: Goal) => g.userId == user && g.date == date.value);
      if k < |s.goals| then Ok(s.goals[k]) else NotFound
  }

  /** POST /goals.  Validation failures answer 400 before the store is
      touched; an insert colliding with the unique index answers
      `DuplicateDate` and leaves the existing goal as it was. */
  function Create(s: Store, user: UserId, b: GoalBody, now: Instant): (r: (Response<Goal>, Store))
    ensures s.Valid() ==> r.1.Valid()
    ensures !r.0.Created? ==> r.1 == s
    ensures r.0.Invalid? <==> ValidateGoalCreate(b) != []
    ensures r.0.Invalid? ==> r.0.errors == ValidateGoalCreate(b)
    ensures r.0.Created? || r.0.Invalid? || r.0.DuplicateDate? || r.0.ServerError?
    ensures r.0.DuplicateDate? <==>
      && ValidateGoalCreate(b) == []
      && b.date.value.instant.Some?
      && HasGoalOn(s.goals, user, b.date.value.instant.value)
    ensures r.0.Created? <==>
      && ValidateGoalCreate(b) == []
      && b.date.value.instant.Some?
      && !HasGoalOn(s.goals, user, b.date.value.instant.value)
    ensures r.0.Created? ==>
      && ValidateGoalCreate(b) == []
      && b.date.Some? && b.date.value.instant.Some?
      && r.1.goals == s.goals + [r.0.value]
      && r.1.nextId == s.nextId + 1
      && r.0.value == GoalOfBody(b, s.nextId, user, now)
  {
    var errs := ValidateGoalCreate(b);
    if errs != [] then (Invalid(errs), s)
    else
      GoalCreateAccepted(b);
      if b.date.value.instant.None? then (ServerError, s)
      else
        var g := GoalOfBody(b, s.nextId, user, now);
        if HasGoalOn(s.goals, user, g.date) then (DuplicateDate, s)
        else (Created(g), Store(s.goals + [g], s.nextId + 1))
  }

  /** PUT /goals/:id.  Only the goal with this id owned by the caller is
      touched; an id that is not the caller's answers 404.  The body may
      move the goal to another date or, through a `userId` key, to another
      owner; landing where that owner already has a goal for that date
      breaks the unique index and answers 500. */
  function Update(s: Store, user: UserId, id: Option<RecordId>, b: GoalBody): (r: (Response<Goal>, Store))
    ensures s.Valid() ==> r.1.Valid()
    ensures !r.0.Ok? ==> r.1 == s
    ensures r.0.Invalid? <==> ValidateGoalUpdate(b) != []
    ensures r.0.Ok? || r.0.Invalid? || r.0.NotFound? || r.0.ServerError?
    ensures r.0.NotFound? <==>
      && ValidateGoalUpdate(b) == []
      && id.Some? && (b.date.Some? ==> b.date.value.instant.Some?)
      && IndexOwned(s.goals, user, id.value) == |s.goals|
    ensures r.0.Ok? <==>
      && ValidateGoalUpdate(b) == []
      && id.Some? && (b.date.Some? ==> b.date.value.instant.Some?)
      && var k := IndexOwned(s.goals, user, id.value);
         && k < |s.goals|
         && !TakenByOther(s.goals, k, b.userId.GetOr(user),
                          if b.date.Some? then b.date.value.instant.value else s.goals[k].date)
    ensures r.0.Ok? ==>
      var k := IndexOwned(s.goals, user, id.value);
      && k < |s.goals|
      && ValidateGoalUpdate(b) == [] && GoalUpdateValuesOk(b)
      && (b.date.Some? ==> b.date.value.instant.Some?)
      && r.0.value == ApplyGoalUpdate(s.goals[k], b)
      && r.1 == s.(goals := s.goals[k := r.0.value])
  {
    var errs := ValidateGoalUpdate(b);
    if errs != [] then (Invalid(errs), s)
    else if id.None? || (b.date.Some? && b.date.value.instant.None?) then (ServerError, s)
    else
      var k := IndexOwned(s.goals, user, id.value);
      if k == |s.goals| then (NotFound, s)
      else
        GoalUpdateAccepted(b);
        var g := ApplyGoalUpdate(s.goals[k], b);
        if TakenByOther(s.goals, k, g.userId, g.date) then
          (ServerError, s)
        else
          (Ok(g), s.(goals := s.goals[k := g]))
  }

  /** DELETE /goals/:id.  Removes only the caller's goal with this id. */
  function Delete(s: Store, user: UserId, id: Option<RecordId>): (r: (Response<Goal>, Store))
    ensures s.Valid() ==> r.1.Valid()
    ensures !r.0.Ok? ==> r.1 == s
    ensures r.0.Ok? || r.0.NotFound? || r.0.ServerError?
    ensures r.0.ServerError? <==> id.None?
    ensures r.0.NotFound? <==> id.Some? && IndexOwned(s.goals, user, id.value) == |s.goals|
    ensures r.0.Ok? ==>
      var k := IndexOwned(s.goals, user, id.value);
      && k < |s.goals|
      && r.0.value == s.goals[k]
      && r.1 == s.(goals := s.goals[..k] + s.goals[k + 1..])
  {
    if id.None? then (ServerError, s)
    else
      var k := IndexOwned(s.goals, user, id.value);
      if k == |s.goals| then (NotFound, s)
      else
        RemovePreservesValid(s, k);
        (Ok(s.goals[k]), s.(goals := s.goals[..k] + s.goals[k + 1..]))
  }

  /** Removing one goal keeps the store valid. */
  lemma RemovePreservesValid(s: Store, k: nat)
    requires k < |s.goals|
    ensures s.Valid() ==> s.(goals := s.goals[..k] + s.goals[k + 1..]).Valid()
  {
    var t := s.goals[..k] + s.goals[k + 1..];
    assert forall i :: 0 <= i < |t| ==> t[i] == s.goals[if i < k then i else i + 1];
  }

  // ----- properties of the goal routes -----

  /** A goal just created is what GET /goals/:date returns for its date. */
  lemma CreateThenGetByDate(s: Store, user: UserId, b: GoalBody, now: Instant)
    requires Create(s, user, b, now).0.Created?
    ensures var (r, s') := Create(s, user, b, now);
      GetByDate(s', user, Some(r.value.date)) == Ok(r.value)
  {
    var (r, s') := Create(s, user, b, now);
    var g := r.value;
    var p := (x: Goal) => x.userId == user && x.date == g.date;
    var k := Seqs.FindFirst(s'.goals, p);
    if k < |s.goals| {
      assert false;
    }
    assert p(s'.goals[|s.goals|]);
  }

  /** Two creates for the same user and date: whichever comes second
      answers `DuplicateDate` and changes nothing, so exactly one of them
      succeeds whatever their order. */
  lemma SecondCreateSameDateConflicts(s: Store, user: UserId, b1: GoalBody, b2: GoalBody, now1: Instant, now2: Instant)
    requires Create(s, user, b1, now1).0.Created?
    requires ValidateGoalCreate(b2) == []
    requires b2.date.value.instant == b1.date.value.instant
    ensures var s' := Create(s, user, b1, now1).1;
      Create(s', user, b2, now2) == (DuplicateDate, s')
  {
    var (r, s') := Create(s, user, b1, now1);
    assert s'.goals[|s.goals|] == r.value;
    assert HasGoalOn(s'.goals, user, r.value.date);
  }

  /** Under the unique index, the goal GET /goals/:date answers with is
      the caller's only goal at that date. */
  lemma GetByDateIsTheOnlyMatch(s: Store, user: UserId, date: Instant)
    requires s.Valid()
    requires GetByDate(s, user, Some(date)).Ok?
    ensures forall i :: 0 <= i < |s.goals| && s.goals[i].userId == user && s.goals[i].date == date ==>
      s.goals[i] == GetByDate(s, user, Some(date)).value
  {
    var k := Seqs.FindFirst(s.goals, (g: Goal) => g.userId == user && g.date == date);
    forall i | 0 <= i < |s.goals| && s.goals[i].userId == user && s.goals[i].date == date
      ensures s.goals[i] == s.goals[k]
    {
      if i != k {
        assert false;
      }
    }
  }

  /** An update that moves a goal onto a date its (possibly new) owner
      already has a goal for trips the unique index and answers 500,
      changing nothing. */
  lemma UpdateOntoTakenDateIsServerError(s: Store, user: UserId, id: RecordId, b: GoalBody, j: nat)
    requires ValidateGoalUpdate(b) == []
    requires b.date.Some? && b.date.value.instant.Some?
    requires IndexOwned(s.goals, user, id) < |s.goals|
    requires j < |s.goals| && j != IndexOwned(s.goals, user, id)
    requires s.goals[j].userId == b.userId.GetOr(user) && s.goals[j].date == b.date.value.instant.value
    ensures Update(s, user, Some(id), b) == (ServerError, s)
  {
    var k := IndexOwned(s.goals, user, id);
    GoalUpdateAccepted(b);
    var g := ApplyGoalUpdate(s.goals[k], b);
    assert s.goals[j].userId == g.userId && s.goals[j].date == g.date;
  }

  /** Update and delete leave every goal of every other user where it was. */
  lemma OtherUsersUntouched(s: Store, user: UserId, id: Option<RecordId>, b: GoalBody)
    ensures forall i :: 0 <= i < |s.goals| && s.goals[i].userId != user ==>
      i < |Update(s, user, id, b).1.goals| && Update(s, user, id, b).1.goals[i] == s.goals[i]
    ensures forall g :: g in s.goals && g.userId != user ==> g in Delete(s, user, id).1.goals
  {
    var (r, s') := Delete(s, user, id);
    if r.Ok? {
      var k := IndexOwned(s.goals, user, id.value);
      forall g | g in s.goals && g.userId != user
        ensures g in s'.goals
      {
        var i :| 0 <= i < |s.goals| && s.goals[i] == g;
        if i < k {
          assert s'.goals[i] == g;
        } else {
          assert i != k;
          assert s'.goals[i - 1] == g;
        }
      }
    }
  }

  /** A goal that exists but belongs to someone else is NotFound for the
      caller, for update and for delete alike. */
  lemma ForeignGoalNotFound(s: Store, user: UserId, id: RecordId, b: GoalBody, i: nat)
    requires s.Valid()
    requires i < |s.goals| && s.goals[i].id == id && s.goals[i].userId != user
    requires ValidateGoalUpdate(b) == []
    requires b.date.Some? ==> b.date.value.instant.Some?
    ensures Update(s, user, Some(id), b) == (NotFound, s)
    ensures Delete(s, user, Some(id)) == (NotFound, s)
  {
    var k := IndexOwned(s.goals, user, id);
    if k < |s.goals| {
      assert false;
    }
  }

  /** Deleting is not idempotent: once a goal is deleted, deleting it
      again answers NotFound. */
  lemma DeleteTwiceNotFound(s: Store, user: UserId, id: RecordId)
    requires s.Valid()
    requires Delete(s, user, Some(id)).0.Ok?
    ensures Delete(Delete(s, user, Some(id)).1, user, Some(id)).0.NotFound?
  {
    var k := IndexOwned(s.goals, user, id);
    var s' := Delete(s, user, Some(id)).1;
    var k' := IndexOwned(s'.goals, user, id);
    if k' < |s'.goals| {
      assert false;
    }
  }
}
