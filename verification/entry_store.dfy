/**
 The entry routes over an abstract store.  They mirror the goal routes
 except that the (userId, date) index is not unique: any number of
 entries may share a user and a date, and create never conflicts.
 */
module EntryStore {
  import opened Wrappers
  import opened Records
  import opened Validation
  import opened Responses
  import Seqs

  datatype Store = Store(entries: seq<Entry>, nextId: RecordId)
  {
    /** Ids are distinct and below `nextId`, and every entry meets the schema. */
    predicate Valid()
    {
      && (forall i :: 0 <= i < |entries| ==> entries[i].id < nextId && EntrySchemaValid(entries[i]))
      && (forall i, j :: 0 <= i < j < |entries| ==> entries[i].id != entries[j].id)
    }
  }

  /** Position of the entry with this id owned by `user`, or `|entries|`. */
  function IndexOwned(entries: seq<Entry>, user: UserId, id: RecordId): (k: nat)
    ensures k <= |entries|
    ensures k < |entries| ==> entries[k].id == id && entries[k].userId == user
    ensures k == |entries| <==> forall i :: 0 <= i < |entries| ==> !(entries[i].id == id && entries[i].userId == user)
  {
    Seqs.FindFirst(entries, (e: Entry) => e.id == id && e.userId == user)
  }

  /** The caller's entries dated exactly `date`, in store order. */
  function EntriesOn(entries: seq<Entry>, user: UserId, date: Instant): seq<Entry>
  {
    Seqs.Filter(entries, (e: Entry) => e.userId == user && e.date == date)
  }

  /** GET /entries: the caller's entries, latest date first. */
  function List(s: Store, user: UserId): (r: seq<Entry>)
    ensures forall e :: e in r <==> e in s.entries && e.userId == user
    ensures forall i, j :: 0 <= i < j < |r| ==> r[i].date >= r[j].date
    ensures multiset(r) == multiset(Seqs.Filter(s.entries, (e: Entry) => e.userId == user))
  {
    var mine := Seqs.Filter(s.entries, (e: Entry) => e.userId == user);
    Seqs.FilterMembers(s.entries, (e: Entry) => e.userId == user);
    var r := Seqs.SortBy(mine, (e: Entry) => -e.date);
    assert forall e :: e in r <==> e in mine by {
      forall e ensures e in r <==> e in mine {
        assert e in r <==> e in multiset(r);
      }
    }
    r
  }

  /** GET /entries/:date: one of the caller's entries at exactly that
      instant.  `findOne` without a sort does not say which; the model
      answers with the first in store order, and the contract promises
      only that the answer is one of them. */
  function GetByDate(s: Store, user: UserId, date: Option<Instant>): (r: Response<Entry>)
    ensures r.Ok? || r.NotFound? || r.ServerError?
    ensures r.ServerError? <==> date.None?
    ensures r.Ok? ==> r.value in s.entries && r.value.userId == user && r.value.date == date.value
    ensures r.NotFound? <==> date.Some? && EntriesOn(s.entries, user, date.value) == []
  {
    if date.None? then ServerError
    else
      var k := Seqs.FindFirst(s.entries, (e: Entry) => e.userId == user && e.date == date.value);
      Seqs.FilterMembers(s.entries, (e: Entry) => e.userId == user && e.date == date.value);
      Seqs.FilterEmpty(s.entries, (e: Entry) => e.userId == user && e.date == date.value);
      if k < |s.entries| then
        assert s.entries[k] in EntriesOn(s.entries, user, date.value);
        Ok(s.entries[k])
      else
        NotFound
  }

  /** POST /entries.  Validation failures answer 400 before the store is
      touched; otherwise a new entry is always appended. */
  function Create(s: Store, user: UserId, b: EntryBody, now: Instant): (r: (Response<Entry>, Store))
    ensures s.Valid() ==> r.1.Valid()
    ensures !r.0.Created? ==> r.1 == s
    ensures r.0.Invalid? <==> ValidateEntryCreate(b) != []
    ensures r.0.Invalid? ==> r.0.errors == ValidateEntryCreate(b)
    ensures r.0.Created? || r.0.Invalid? || r.0.ServerError?
    ensures r.0.Created? <==> ValidateEntryCreate(b) == [] && b.date.value.instant.Some?
    ensures r.0.Created? ==>
      && ValidateEntryCreate(b) == []
      && b.date.Some? && b.date.value.instant.Some?
      && r.1.entries == s.entries + [r.0.value]
      && r.1.nextId == s.nextId + 1
      && r.0.value == EntryOfBody(b, s.nextId, user, now)
  {
    var errs := ValidateEntryCreate(b);
    if errs != [] then (Invalid(errs), s)
    else
      EntryCreateAccepted(b);
      if b.date.value.instant.None? then (ServerError, s)
      else
        var e := EntryOfBody(b, s.nextId, user, now);
        (Created(e), Store(s.entries + [e], s.nextId + 1))
  }

  /** PUT /entries/:id.  Only the caller's entry with this id is touched. */
  function Update(s: Store, user: UserId, id: Option<RecordId>, b: EntryBody): (r: (Response<Entry>, Store))
    ensures s.Valid() ==> r.1.Valid()
    ensures !r.0.Ok? ==> r.1 == s
    ensures r.0.Invalid? <==> ValidateEntryUpdate(b) != []
    ensures r.0.Ok? || r.0.Invalid? || r.0.NotFound? || r.0.ServerError?
    ensures r.0.NotFound? <==>
      && ValidateEntryUpdate(b) == []
      && id.Some? && (b.date.Some? ==> b.date.value.instant.Some?)
      && IndexOwned(s.entries, user, id.value) == |s.entries|
    ensures r.0.Ok? <==>
      && ValidateEntryUpdate(b) == []
      && id.Some? && (b.date.Some? ==> b.date.value.instant.Some?)
      && IndexOwned(s.entries, user, id.value) < |s.entries|
    ensures r.0.Ok? ==>
      var k := IndexOwned(s.entries, user, id.value);
      && k < |s.entries|
      && ValidateEntryUpdate(b) == [] && EntryUpdateValuesOk(b)
      && (b.date.Some? ==> b.date.value.instant.Some?)
      && r.0.value == ApplyEntryUpdate(s.entries[k], b)
      && r.1 == s.(entries := s.entries[k := r.0.value])
  {
    var errs := ValidateEntryUpdate(b);
    if errs != [] then (Invalid(errs), s)
    else if id.None? || (b.date.Some? && b.date.value.instant.None?) then (ServerError, s)
    else
      var k := IndexOwned(s.entries, user, id.value);
      if k == |s.entries| then (NotFound, s)
      else
        EntryUpdateAccepted(b);
        var e := ApplyEntryUpdate(s.entries[k], b);
        (Ok(e), s.(entries := s.entries[k := e]))
  }

  /** DELETE /entries/:id.  Removes only the caller's entry with this id. */
  function Delete(s: Store, user: UserId, id: Option<RecordId>): (r: (Response<Entry>, Store))
    ensures s.Valid() ==> r.1.Valid()
    ensures !r.0.Ok? ==> r.1 == s
    ensures r.0.Ok? || r.0.NotFound? || r.0.ServerError?
    ensures r.0.ServerError? <==> id.None?
    ensures r.0.NotFound? <==> id.Some? && IndexOwned(s.entries, user, id.value) == |s.entries|
    ensures r.0.Ok? ==>
      var k := IndexOwned(s.entries, user, id.value);
      && k < |s.entries|
      && r.0.value == s.entries[k]
      && r.1 == s.(entries := s.entries[..k] + s.entries[k + 1..])
  {
    if id.None? then (ServerError, s)
    else
      var k := IndexOwned(s.entries, user, id.value);
      if k == |s.entries| then (NotFound, s)
      else
        RemovePreservesValid(s, k);
        (Ok(s.entries[k]), s.(entries := s.entries[..k] + s.entries[k + 1..]))
  }

  /** Removing one entry keeps the store valid. */
  lemma RemovePreservesValid(s: Store, k: nat)
    requires k < |s.entries|
    ensures s.Valid() ==> s.(entries := s.entries[..k] + s.entries[k + 1..]).Valid()
  {
    var t := s.entries[..k] + s.entries[k + 1..];
    assert forall i :: 0 <= i < |t| ==> t[i] == s.entries[if i < k then i else i + 1];
  }

  // ----- properties of the entry routes -----

  /** Create never conflicts: every accepted body adds exactly one entry
      on its date, whatever the caller already logged that day. */
  lemma CreateAlwaysAddsOne(s: Store, user: UserId, b: EntryBody, now: Instant)
    requires ValidateEntryCreate(b) == []
    requires b.date.value.instant.Some?
    ensures var (r, s') := Create(s, user, b, now);
      var d := b.date.value.instant.value;
      && r.Created?
      && EntriesOn(s'.entries, user, d) == EntriesOn(s.entries, user, d) + [r.value]
  {
    var (r, s') := Create(s, user, b, now);
    Seqs.FilterAppend(s.entries, r.value, (e: Entry) => e.userId == user && e.date == b.date.value.instant.value);
  }

  /** Two accepted creates for the same user and date both succeed and
      leave two distinct entries on that date. */
  lemma TwoCreatesSameDateBothStored(s: Store, user: UserId, b1: EntryBody, b2: EntryBody, now1: Instant, now2: Instant)
    requires ValidateEntryCreate(b1) == [] && ValidateEntryCreate(b2) == []
    requires b1.date.value.instant.Some? && b2.date.value.instant == b1.date.value.instant
    ensures Create(s, user, b1, now1).0.Created?
    ensures Create(Create(s, user, b1, now1).1, user, b2, now2).0.Created?
    ensures Create(s, user, b1, now1).0.value.id != Create(Create(s, user, b1, now1).1, user, b2, now2).0.value.id
    ensures EntriesOn(Create(Create(s, user, b1, now1).1, user, b2, now2).1.entries, user, b1.date.value.instant.value)
      == EntriesOn(s.entries, user, b1.date.value.instant.value)
         + [Create(s, user, b1, now1).0.value, Create(Create(s, user, b1, now1).1, user, b2, now2).0.value]
  {
    var d := b1.date.value.instant.value;
    var c1 := Create(s, user, b1, now1);
    var c2 := Create(c1.1, user, b2, now2);
    CreateAlwaysAddsOne(s, user, b1, now1);
    CreateAlwaysAddsOne(c1.1, user, b2, now2);
    assert c1.0.value.id == s.nextId;
    assert c2.0.value.id == s.nextId + 1;
    var before := EntriesOn(s.entries, user, d);
    assert EntriesOn(c2.1.entries, user, d) == before + [c1.0.value] + [c2.0.value];
  }

  /** An entry that exists but belongs to someone else is NotFound for
      the caller, for update and for delete alike. */
  lemma ForeignEntryNotFound(s: Store, user: UserId, id: RecordId, b: EntryBody, i: nat)
    requires s.Valid()
    requires i < |s.entries| && s.entries[i].id == id && s.entries[i].userId != user
    requires ValidateEntryUpdate(b) == []
    requires b.date.Some? ==> b.date.value.instant.Some?
    ensures Update(s, user, Some(id), b) == (NotFound, s)
    ensures Delete(s, user, Some(id)) == (NotFound, s)
  {
    var k := IndexOwned(s.entries, user, id);
    if k < |s.entries| {
      assert false;
    }
  }

  /** Once an entry is deleted, deleting it again answers NotFound. */
  lemma DeleteTwiceNotFound(s: Store, user: UserId, id: RecordId)
    requires s.Valid()
    requires Delete(s, user, Some(id)).0.Ok?
    ensures Delete(Delete(s, user, Some(id)).1, user, Some(id)).0.NotFound?
  {
    var s' := Delete(s, user, Some(id)).1;
    var k' := IndexOwned(s'.entries, user, id);
    if k' < |s'.entries| {
      assert false;
    }
  }
}
