/**
 The two persisted entities, goals and entries, and the bounds their
 schemas impose.  Dates are instants in integer milliseconds (what a
 JavaScript `Date` holds); water is in litres as a `real`.
 */
module Records {
  import opened Workouts

  /** The opaque identity of a user, resolved by the auth layer. */
  type UserId = nat

  /** A record's `_id`, assigned by the store on insert. */
  type RecordId = nat

  /** Milliseconds since the epoch. */
  type Instant = int

  datatype BloodPressure = BloodPressure(systolic: int, diastolic: int)

  /** A user's target for one date. */
  datatype Goal = Goal(
    id: RecordId,
    userId: UserId,
    date: Instant,
    workout: Workout,
    workoutMinutes: int,
    caloriesBurnt: int,
    waterConsumption: real,
    sleepTime: string,
    wakeupTime: string,
    bloodPressure: BloodPressure,
    heartRate: int,
    createdAt: Instant)

  /** One logged activity; a user may log any number per date. */
  datatype Entry = Entry(
    id: RecordId,
    userId: UserId,
    date: Instant,
    workout: Workout,
    workoutMinutes: int,
    waterConsumption: real,
    sleepTime: string,
    wakeupTime: string,
    createdAt: Instant)

  // Schema bounds shared by the validators.
  const SystolicMin := 50
  const SystolicMax := 300
  const DiastolicMin := 30
  const DiastolicMax := 200
  const HeartRateMin := 30
  const HeartRateMax := 220

  /** The goal schema: every field present (a required string may not be
      empty), counts non-negative, vitals inside their ranges.  The enum
      holds by construction of `Workout`. */
  predicate GoalSchemaValid(g: Goal)
  {
    && g.workoutMinutes >= 0
    && g.caloriesBurnt >= 0
    && g.waterConsumption >= 0.0
    && g.sleepTime != []
    && g.wakeupTime != []
    && SystolicMin <= g.bloodPressure.systolic <= SystolicMax
    && DiastolicMin <= g.bloodPressure.diastolic <= DiastolicMax
    && HeartRateMin <= g.heartRate <= HeartRateMax
  }

  /** The entry schema: every field present, counts non-negative. */
  predicate EntrySchemaValid(e: Entry)
  {
    && e.workoutMinutes >= 0
    && e.waterConsumption >= 0.0
    && e.sleepTime != []
    && e.wakeupTime != []
  }

  /** The goal unique index: two distinct goals never share a user and a date. */
  predicate GoalsUniqueByUserDate(goals: seq<Goal>)
  {
    forall i, j :: 0 <= i < j < |goals| ==>
      goals[i].userId != goals[j].userId || goals[i].date != goals[j].date
  }
}
