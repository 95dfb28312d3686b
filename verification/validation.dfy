/**
 Request bodies for creating and updating goals and entries, the
 per-field rules the routes check before touching the store, and the
 records a validated body turns into.

 A body field is `None` when the key is missing from the JSON.  Numbers
 are JSON numbers (`real`); `isInt` asks for an integral value below 10^21.  Date
 text is reduced to two facts: whether it passes the ISO-8601 check, and
 the instant `new Date(text)` yields (None for an invalid date).
 */
module Validation {
  import opened Wrappers
  import opened Workouts
  import opened ClockTime
  import opened Records

  datatype DateInput = DateInput(iso: bool, instant: Option<Instant>)

  datatype GoalBody = GoalBody(
    date: Option<DateInput>,
    workout: Option<string>,
    workoutMinutes: Option<real>,
    caloriesBurnt: Option<real>,
    waterConsumption: Option<real>,
    sleepTime: Option<string>,
    wakeupTime: Option<string>,
    systolic: Option<real>,
    diastolic: Option<real>,
    heartRate: Option<real>,
    userId: Option<UserId>)

  datatype EntryBody = EntryBody(
    date: Option<DateInput>,
    workout: Option<string>,
    workoutMinutes: Option<real>,
    waterConsumption: Option<real>,
    sleepTime: Option<string>,
    wakeupTime: Option<string>,
    userId: Option<UserId>)

  /** The body fields a validator can report. */
  datatype Field =
    | Date | WorkoutName | WorkoutMinutes | CaloriesBurnt | WaterConsumption
    | SleepTime | WakeupTime | Systolic | Diastolic | HeartRate

  /** The fields each route checks, in the order it declares them.  The
      update routes do not check `date`. */
  const GoalCreateFields: seq<Field> :=
    [Date, WorkoutName, WorkoutMinutes, CaloriesBurnt, WaterConsumption,
     SleepTime, WakeupTime, Systolic, Diastolic, HeartRate]
  const GoalUpdateFields: seq<Field> :=
    [WorkoutName, WorkoutMinutes, CaloriesBurnt, WaterConsumption,
     SleepTime, WakeupTime, Systolic, Diastolic, HeartRate]
  const EntryCreateFields: seq<Field> :=
    [Date, WorkoutName, WorkoutMinutes, WaterConsumption, SleepTime, WakeupTime]
  const EntryUpdateFields: seq<Field> :=
    [WorkoutName, WorkoutMinutes, WaterConsumption, SleepTime, WakeupTime]

  // ----- the express-validator checks -----

  /** The least number JavaScript prints in exponent form ("1e+21"); the
      `isInt` pattern rejects that text. */
  const ExponentFormFrom: real := 1000000000000000000000.0

  /** `isInt({ min: lo })` on a number: its text must be a plain integer,
      so it is integral and below `ExponentFormFrom`, and at least `lo`. */
  predicate IsIntAtLeast(x: real, lo: int)
  {
    x == x.Floor as real && x >= lo as real && x < ExponentFormFrom
  }

  /** `isInt({ min: lo, max: hi })` on a number. */
  predicate IsIntBetween(x: real, lo: int, hi: int)
  {
    IsIntAtLeast(x, lo) && x <= hi as real
  }

  /** A checked key: a missing key fails unless the chain is `.optional()`. */
  predicate Checked<T>(v: Option<T>, optional: bool, ok: T -> bool)
  {
    if v.None? then optional else ok(v.value)
  }

  /** Does field `f` of a goal body pass its rule? */
  predicate GoalFieldPasses(b: GoalBody, f: Field, optional: bool)
  {
    match f
    case Date => Checked(b.date, optional, (d: DateInput) => d.iso)
    case WorkoutName => Checked(b.workout, optional, IsWorkoutName)
    case WorkoutMinutes => Checked(b.workoutMinutes, optional, (x: real) => IsIntAtLeast(x, 0))
    case CaloriesBurnt => Checked(b.caloriesBurnt, optional, (x: real) => IsIntAtLeast(x, 0))
    case WaterConsumption => Checked(b.waterConsumption, optional, (x: real) => x >= 0.0)
    case SleepTime => Checked(b.sleepTime, optional, MatchesTimePattern)
    case WakeupTime => Checked(b.wakeupTime, optional, MatchesTimePattern)
    case Systolic => Checked(b.systolic, optional, (x: real) => IsIntBetween(x, SystolicMin, SystolicMax))
    case Diastolic => Checked(b.diastolic, optional, (x: real) => IsIntBetween(x, DiastolicMin, DiastolicMax))
    case HeartRate => Checked(b.heartRate, optional, (x: real) => IsIntBetween(x, HeartRateMin, HeartRateMax))
  }

  /** Does field `f` of an entry body pass its rule?  Entries have no
      calorie or vital-sign fields, so those always pass. */
  predicate EntryFieldPasses(b: EntryBody, f: Field, optional: bool)
  {
    match f
    case Date => Checked(b.date, optional, (d: DateInput) => d.iso)
    case WorkoutName => Checked(b.workout, optional, IsWorkoutName)
    case WorkoutMinutes => Checked(b.workoutMinutes, optional, (x: real) => IsIntAtLeast(x, 0))
    case WaterConsumption => Checked(b.waterConsumption, optional, (x: real) => x >= 0.0)
    case SleepTime => Checked(b.sleepTime, optional, MatchesTimePattern)
    case WakeupTime => Checked(b.wakeupTime, optional, MatchesTimePattern)
    case _ => true
  }

  // ----- the validators: every failing field, in declaration order -----

  predicate Distinct(fields: seq<Field>)
  {
    forall i, j :: 0 <= i < j < |fields| ==> fields[i] != fields[j]
  }

  /** The fields of `fields` whose goal rule fails, in order. */
  function FailingGoalFields(fields: seq<Field>, b: GoalBody, optional: bool): (errs: seq<Field>)
    ensures forall f :: f in errs <==> f in fields && !GoalFieldPasses(b, f, optional)
    ensures Distinct(fields) ==> Distinct(errs)
  {
    if |fields| == 0 then []
    else
      var rest := FailingGoalFields(fields[1..], b, optional);
      assert forall f :: f in fields <==> f == fields[0] || f in fields[1..];
      if GoalFieldPasses(b, fields[0], optional) then rest else [fields[0]] + rest
  }

  /** The fields of `fields` whose entry rule fails, in order. */
  function FailingEntryFields(fields: seq<Field>, b: EntryBody, optional: bool): (errs: seq<Field>)
    ensures forall f :: f in errs <==> f in fields && !EntryFieldPasses(b, f, optional)
    ensures Distinct(fields) ==> Distinct(errs)
  {
    if |fields| == 0 then []
    else
      var rest := FailingEntryFields(fields[1..], b, optional);
      assert forall f :: f in fields <==> f == fields[0] || f in fields[1..];
      if EntryFieldPasses(b, fields[0], optional) then rest else [fields[0]] + rest
  }

  /** The goal create route checks every field once. */
  lemma GoalCreateFieldsComplete()
    ensures forall f: Field :: f in GoalCreateFields
  {
    forall f: Field
      ensures f in GoalCreateFields
    {
      match f
      case Date => assert GoalCreateFields[0] == f;
      case WorkoutName => assert GoalCreateFields[1] == f;
      case WorkoutMinutes => assert GoalCreateFields[2] == f;
      case CaloriesBurnt => assert GoalCreateFields[3] == f;
      case WaterConsumption => assert GoalCreateFields[4] == f;
      case SleepTime => assert GoalCreateFields[5] == f;
      case WakeupTime => assert GoalCreateFields[6] == f;
      case Systolic => assert GoalCreateFields[7] == f;
      case Diastolic => assert GoalCreateFields[8] == f;
      case HeartRate => assert GoalCreateFields[9] == f;
    }
  }

  /** The goal update route checks every field but `date`, and no field twice. */
  lemma GoalFieldLists()
    ensures forall f: Field :: f in GoalCreateFields
    ensures forall f: Field :: f in GoalUpdateFields <==> f != Date
    ensures Distinct(GoalCreateFields) && Distinct(GoalUpdateFields)
  {
    GoalCreateFieldsComplete();
    assert GoalUpdateFields == GoalCreateFields[1..];
  }

  /** The POST /goals validator.  It reports all failing fields at once. */
  function ValidateGoalCreate(b: GoalBody): (errs: seq<Field>)
    ensures forall f :: f in errs <==> !GoalFieldPasses(b, f, false)
    ensures Distinct(errs)
  {
    GoalFieldLists();
    FailingGoalFields(GoalCreateFields, b, false)
  }

  /** The PUT /goals/:id validator: the same rules, all optional, and no
      rule for `date`. */
  function ValidateGoalUpdate(b: GoalBody): (errs: seq<Field>)
    ensures forall f :: f in errs <==> f != Date && !GoalFieldPasses(b, f, true)
    ensures Distinct(errs)
  {
    GoalFieldLists();
    FailingGoalFields(GoalUpdateFields, b, true)
  }

  /** The POST /entries validator. */
  function ValidateEntryCreate(b: EntryBody): (errs: seq<Field>)
    ensures forall f :: f in errs <==> f in EntryCreateFields && !EntryFieldPasses(b, f, false)
    ensures Distinct(errs)
  {
    FailingEntryFields(EntryCreateFields, b, false)
  }

  /** The PUT /entries/:id validator. */
  function ValidateEntryUpdate(b: EntryBody): (errs: seq<Field>)
    ensures forall f :: f in errs <==> f in EntryUpdateFields && !EntryFieldPasses(b, f, true)
    ensures Distinct(errs)
  {
    FailingEntryFields(EntryUpdateFields, b, true)
  }

  // ----- create versus update -----

  /** Is the key for field `f` present in a goal body? */
  predicate GoalFieldPresent(b: GoalBody, f: Field)
  {
    match f
    case Date => b.date.Some?
    case WorkoutName => b.workout.Some?
    case WorkoutMinutes => b.workoutMinutes.Some?
    case CaloriesBurnt => b.caloriesBurnt.Some?
    case WaterConsumption => b.waterConsumption.Some?
    case SleepTime => b.sleepTime.Some?
    case WakeupTime => b.wakeupTime.Some?
    case Systolic => b.systolic.Some?
    case Diastolic => b.diastolic.Some?
    case HeartRate => b.heartRate.Some?
  }

  /** A present key gets the same verdict from the optional and the
      required rule; a missing key passes only the optional one. */
  lemma GoalFieldRulesRelate(b: GoalBody, f: Field)
    ensures GoalFieldPresent(b, f) ==> (GoalFieldPasses(b, f, true) <==> GoalFieldPasses(b, f, false))
    ensures !GoalFieldPresent(b, f) ==> GoalFieldPasses(b, f, true) && !GoalFieldPasses(b, f, false)
  {
  }

  /** Update relaxes create only by making keys optional: a field other
      than `date` fails the update rules exactly when it is present and
      fails the create rules, so a body create accepts, update accepts. */
  lemma GoalUpdateRulesMatchCreate(b: GoalBody)
    ensures forall f :: f != Date ==>
      (f in ValidateGoalUpdate(b) <==> GoalFieldPresent(b, f) && f in ValidateGoalCreate(b))
    ensures ValidateGoalCreate(b) == [] ==> ValidateGoalUpdate(b) == []
  {
    if ValidateGoalCreate(b) == [] && ValidateGoalUpdate(b) != [] {
      var f := ValidateGoalUpdate(b)[0];
      GoalFieldRulesRelate(b, f);
      assert false;
    }
    forall f
      ensures f != Date ==>
        (f in ValidateGoalUpdate(b) <==> GoalFieldPresent(b, f) && f in ValidateGoalCreate(b))
    {
      GoalFieldRulesRelate(b, f);
    }
  }

  // ----- records built from validated bodies -----

  /** What an empty error list from the goal create validator means, field by field. */
  lemma GoalCreateAccepted(b: GoalBody)
    requires ValidateGoalCreate(b) == []
    ensures b.date.Some? && b.date.value.iso
    ensures b.workout.Some? && IsWorkoutName(b.workout.value)
    ensures b.workoutMinutes.Some? && IsIntAtLeast(b.workoutMinutes.value, 0)
    ensures b.caloriesBurnt.Some? && IsIntAtLeast(b.caloriesBurnt.value, 0)
    ensures b.waterConsumption.Some? && b.waterConsumption.value >= 0.0
    ensures b.sleepTime.Some? && MatchesTimePattern(b.sleepTime.value)
    ensures b.wakeupTime.Some? && MatchesTimePattern(b.wakeupTime.value)
    ensures b.systolic.Some? && IsIntBetween(b.systolic.value, SystolicMin, SystolicMax)
    ensures b.diastolic.Some? && IsIntBetween(b.diastolic.value, DiastolicMin, DiastolicMax)
    ensures b.heartRate.Some? && IsIntBetween(b.heartRate.value, HeartRateMin, HeartRateMax)
  {
    var errs := ValidateGoalCreate(b);
    assert Date !in errs && WorkoutName !in errs && WorkoutMinutes !in errs;
    assert CaloriesBurnt !in errs && WaterConsumption !in errs && SleepTime !in errs;
    assert WakeupTime !in errs && Systolic !in errs && Diastolic !in errs && HeartRate !in errs;
  }

  /** Every value an update body carries meets its field's rule. */
  predicate GoalUpdateValuesOk(b: GoalBody)
  {
    && (b.workout.Some? ==> IsWorkoutName(b.workout.value))
    && (b.workoutMinutes.Some? ==> IsIntAtLeast(b.workoutMinutes.value, 0))
    && (b.caloriesBurnt.Some? ==> IsIntAtLeast(b.caloriesBurnt.value, 0))
    && (b.waterConsumption.Some? ==> b.waterConsumption.value >= 0.0)
    && (b.sleepTime.Some? ==> MatchesTimePattern(b.sleepTime.value))
    && (b.wakeupTime.Some? ==> MatchesTimePattern(b.wakeupTime.value))
    && (b.systolic.Some? ==> IsIntBetween(b.systolic.value, SystolicMin, SystolicMax))
    && (b.diastolic.Some? ==> IsIntBetween(b.diastolic.value, DiastolicMin, DiastolicMax))
    && (b.heartRate.Some? ==> IsIntBetween(b.heartRate.value, HeartRateMin, HeartRateMax))
  }

  /** What an empty error list from the goal update validator means. */
  lemma GoalUpdateAccepted(b: GoalBody)
    requires ValidateGoalUpdate(b) == []
    ensures GoalUpdateValuesOk(b)
  {
    var errs := ValidateGoalUpdate(b);
    assert GoalFieldPasses(b, WorkoutName, true) && GoalFieldPasses(b, WorkoutMinutes, true) by {
      assert WorkoutName !in errs && WorkoutMinutes !in errs;
    }
    assert GoalFieldPasses(b, CaloriesBurnt, true) && GoalFieldPasses(b, WaterConsumption, true) by {
      assert CaloriesBurnt !in errs && WaterConsumption !in errs;
    }
    assert GoalFieldPasses(b, SleepTime, true) && GoalFieldPasses(b, WakeupTime, true) by {
      assert SleepTime !in errs && WakeupTime !in errs;
    }
    assert GoalFieldPasses(b, Systolic, true) && GoalFieldPasses(b, Diastolic, true) by {
      assert Systolic !in errs && Diastolic !in errs;
    }
    assert GoalFieldPasses(b, HeartRate, true) by {
      assert HeartRate !in errs;
    }
  }

  /** What an empty error list from the entry create validator means. */
  lemma EntryCreateAccepted(b: EntryBody)
    requires ValidateEntryCreate(b) == []
    ensures b.date.Some? && b.date.value.iso
    ensures b.workout.Some? && IsWorkoutName(b.workout.value)
    ensures b.workoutMinutes.Some? && IsIntAtLeast(b.workoutMinutes.value, 0)
    ensures b.waterConsumption.Some? && b.waterConsumption.value >= 0.0
    ensures b.sleepTime.Some? && MatchesTimePattern(b.sleepTime.value)
    ensures b.wakeupTime.Some? && MatchesTimePattern(b.wakeupTime.value)
  {
    var errs := ValidateEntryCreate(b);
    assert Date !in errs && WorkoutName !in errs && WorkoutMinutes !in errs;
    assert WaterConsumption !in errs && SleepTime !in errs && WakeupTime !in errs;
  }

  /** Every value an entry update body carries meets its field's rule. */
  predicate EntryUpdateValuesOk(b: EntryBody)
  {
    && (b.workout.Some? ==> IsWorkoutName(b.workout.value))
    && (b.workoutMinutes.Some? ==> IsIntAtLeast(b.workoutMinutes.value, 0))
    && (b.waterConsumption.Some? ==> b.waterConsumption.value >= 0.0)
    && (b.sleepTime.Some? ==> MatchesTimePattern(b.sleepTime.value))
    && (b.wakeupTime.Some? ==> MatchesTimePattern(b.wakeupTime.value))
  }

  /** What an empty error list from the entry update validator means. */
  lemma EntryUpdateAccepted(b: EntryBody)
    requires ValidateEntryUpdate(b) == []
    ensures EntryUpdateValuesOk(b)
  {
    var errs := ValidateEntryUpdate(b);
    assert WorkoutName !in errs && WorkoutMinutes !in errs;
    assert WaterConsumption !in errs && SleepTime !in errs && WakeupTime !in errs;
  }

  /** The goal a validated create body describes, as `new Goal({...body,
      userId})` stores it: the caller's id overrides any `userId` key in
      the body.  Every submitted value is stored unchanged and the result
      meets the goal schema. */
  function GoalOfBody(b: GoalBody, id: RecordId, user: UserId, now: Instant): (g: Goal)
    requires ValidateGoalCreate(b) == []
    requires b.date.Some? && b.date.value.instant.Some?
    ensures GoalSchemaValid(g)
    ensures g.id == id && g.userId == user && g.createdAt == now
    ensures g.date == b.date.value.instant.value
    ensures b.workout == Some(Name(g.workout))
    ensures b.workoutMinutes == Some(g.workoutMinutes as real)
    ensures b.caloriesBurnt == Some(g.caloriesBurnt as real)
    ensures b.waterConsumption == Some(g.waterConsumption)
    ensures b.sleepTime == Some(g.sleepTime) && b.wakeupTime == Some(g.wakeupTime)
    ensures b.systolic == Some(g.bloodPressure.systolic as real)
    ensures b.diastolic == Some(g.bloodPressure.diastolic as real)
    ensures b.heartRate == Some(g.heartRate as real)
  {
    GoalCreateAccepted(b);
    Goal(
      id, user, b.date.value.instant.value,
      Parse(b.workout.value).value,
      b.workoutMinutes.value.Floor,
      b.caloriesBurnt.value.Floor,
      b.waterConsumption.value,
      b.sleepTime.value,
      b.wakeupTime.value,
      BloodPressure(b.systolic.value.Floor, b.diastolic.value.Floor),
      b.heartRate.value.Floor,
      now)
  }

  /** The entry a validated create body describes; as for goals, the
      caller's id overrides any `userId` key in the body. */
  function EntryOfBody(b: EntryBody, id: RecordId, user: UserId, now: Instant): (e: Entry)
    requires ValidateEntryCreate(b) == []
    requires b.date.Some? && b.date.value.instant.Some?
    ensures EntrySchemaValid(e)
    ensures e.id == id && e.userId == user && e.createdAt == now
    ensures e.date == b.date.value.instant.value
    ensures b.workout == Some(Name(e.workout))
    ensures b.workoutMinutes == Some(e.workoutMinutes as real)
    ensures b.waterConsumption == Some(e.waterConsumption)
    ensures b.sleepTime == Some(e.sleepTime) && b.wakeupTime == Some(e.wakeupTime)
  {
    EntryCreateAccepted(b);
    Entry(
      id, user, b.date.value.instant.value,
      Parse(b.workout.value).value,
      b.workoutMinutes.value.Floor,
      b.waterConsumption.value,
      b.sleepTime.value,
      b.wakeupTime.value,
      now)
  }

  /** The stored integer after an update: the submitted integral number
      when the key is present, the old value otherwise.  A lower bound
      both satisfy survives. */
  function MergeInt(v: Option<real>, stored: int, lo: int): (r: int)
    requires v.Some? ==> IsIntAtLeast(v.value, lo)
    ensures r as real == v.GetOr(stored as real)
    ensures stored >= lo ==> r >= lo
  {
    if v.Some? then v.value.Floor else stored
  }

  /** `MergeInt` for a field with both bounds. */
  function MergeIntBetween(v: Option<real>, stored: int, lo: int, hi: int): (r: int)
    requires v.Some? ==> IsIntBetween(v.value, lo, hi)
    ensures r as real == v.GetOr(stored as real)
    ensures lo <= stored <= hi ==> lo <= r <= hi
  {
    if v.Some? then v.value.Floor else stored
  }

  /** The stored time text after an update; a present value matched the
      pattern, so a non-empty text stays non-empty. */
  function MergeTime(v: Option<string>, stored: string): (r: string)
    requires v.Some? ==> MatchesTimePattern(v.value)
    ensures r == v.GetOr(stored)
    ensures stored != [] ==> r != []
  {
    v.GetOr(stored)
  }

  /** `findOneAndUpdate(filter, body)`: every key present in a validated
      update body overwrites the stored value, every missing key keeps
      it.  The body is passed whole, so a `userId` key hands the record to
      that user; identity and creation time never change, and the schema
      bounds survive. */
  function ApplyGoalUpdate(g: Goal, b: GoalBody): (r: Goal)
    requires GoalUpdateValuesOk(b)
    requires b.date.Some? ==> b.date.value.instant.Some?
    ensures r.id == g.id && r.createdAt == g.createdAt
    ensures r.userId == b.userId.GetOr(g.userId)
    ensures GoalSchemaValid(g) ==> GoalSchemaValid(r)
    ensures r.date == (if b.date.Some? then b.date.value.instant.value else g.date)
    ensures b.workout.Some? ==> b.workout == Some(Name(r.workout))
    ensures b.workout.None? ==> r.workout == g.workout
    ensures r.workoutMinutes as real == b.workoutMinutes.GetOr(g.workoutMinutes as real)
    ensures r.caloriesBurnt as real == b.caloriesBurnt.GetOr(g.caloriesBurnt as real)
    ensures r.waterConsumption == b.waterConsumption.GetOr(g.waterConsumption)
    ensures r.sleepTime == b.sleepTime.GetOr(g.sleepTime)
    ensures r.wakeupTime == b.wakeupTime.GetOr(g.wakeupTime)
    ensures r.bloodPressure.systolic as real == b.systolic.GetOr(g.bloodPressure.systolic as real)
    ensures r.bloodPressure.diastolic as real == b.diastolic.GetOr(g.bloodPressure.diastolic as real)
    ensures r.heartRate as real == b.heartRate.GetOr(g.heartRate as real)
  {
    g.(
      userId := b.userId.GetOr(g.userId),
      date := if b.date.Some? then b.date.value.instant.value else g.date,
      workout := if b.workout.Some? then Parse(b.workout.value).value else g.workout,
      workoutMinutes := MergeInt(b.workoutMinutes, g.workoutMinutes, 0),
      caloriesBurnt := MergeInt(b.caloriesBurnt, g.caloriesBurnt, 0),
      waterConsumption := b.waterConsumption.GetOr(g.waterConsumption),
      sleepTime := MergeTime(b.sleepTime, g.sleepTime),
      wakeupTime := MergeTime(b.wakeupTime, g.wakeupTime),
      bloodPressure := BloodPressure(
        MergeIntBetween(b.systolic, g.bloodPressure.systolic, SystolicMin, SystolicMax),
        MergeIntBetween(b.diastolic, g.bloodPressure.diastolic, DiastolicMin, DiastolicMax)),
      heartRate := MergeIntBetween(b.heartRate, g.heartRate, HeartRateMin, HeartRateMax))
  }

  /** The entry counterpart of `ApplyGoalUpdate`. */
  function ApplyEntryUpdate(e: Entry, b: EntryBody): (r: Entry)
    requires EntryUpdateValuesOk(b)
    requires b.date.Some? ==> b.date.value.instant.Some?
    ensures r.id == e.id && r.createdAt == e.createdAt
    ensures r.userId == b.userId.GetOr(e.userId)
    ensures EntrySchemaValid(e) ==> EntrySchemaValid(r)
    ensures r.date == (if b.date.Some? then b.date.value.instant.value else e.date)
    ensures b.workout.Some? ==> b.workout == Some(Name(r.workout))
    ensures b.workout.None? ==> r.workout == e.workout
    ensures r.workoutMinutes as real == b.workoutMinutes.GetOr(e.workoutMinutes as real)
    ensures r.waterConsumption == b.waterConsumption.GetOr(e.waterConsumption)
    ensures r.sleepTime == b.sleepTime.GetOr(e.sleepTime)
    ensures r.wakeupTime == b.wakeupTime.GetOr(e.wakeupTime)
  {
    e.(
      userId := b.userId.GetOr(e.userId),
      date := if b.date.Some? then b.date.value.instant.value else e.date,
      workout := if b.workout.Some? then Parse(b.workout.value).value else e.workout,
      workoutMinutes := MergeInt(b.workoutMinutes, e.workoutMinutes, 0),
      waterConsumption := b.waterConsumption.GetOr(e.waterConsumption),
      sleepTime := MergeTime(b.sleepTime, e.sleepTime),
      wakeupTime := MergeTime(b.wakeupTime, e.wakeupTime))
  }

  /** Sending the same update twice leaves the goal as sending it once. */
  lemma GoalUpdateIdempotent(g: Goal, b: GoalBody)
    requires GoalUpdateValuesOk(b)
    requires b.date.Some? ==> b.date.value.instant.Some?
    ensures ApplyGoalUpdate(ApplyGoalUpdate(g, b), b) == ApplyGoalUpdate(g, b)
  {
  }

  /** An update whose body carries no keys changes nothing. */
  lemma EmptyGoalUpdateIsIdentity(g: Goal)
    ensures ValidateGoalUpdate(GoalBody(None, None, None, None, None, None, None, None, None, None, None)) == []
    ensures ApplyGoalUpdate(g, GoalBody(None, None, None, None, None, None, None, None, None, None, None)) == g
  {
    var b := GoalBody(None, None, None, None, None, None, None, None, None, None, None);
    assert forall f :: GoalFieldPasses(b, f, true);
  }
}
