/**
 The fixed workout vocabulary shared by goals and entries.  The server
 accepts exactly nine names, both in the route validators and in the
 schema enum; a stored record therefore always carries one of the
 constructors below.
 */
module Workouts {
  import opened Wrappers

  datatype Workout =
    | Running | Cycling | Weightlifting | Swimming | Yoga
    | Walking | Basketball | Tennis | Other

  /** The name under which a workout travels in JSON bodies. */
  function Name(w: Workout): string
  {
    match w
    case Running => "Running"
    case Cycling => "Cycling"
    case Weightlifting => "Weightlifting"
    case Swimming => "Swimming"
    case Yoga => "Yoga"
    case Walking => "Walking"
    case Basketball => "Basketball"
    case Tennis => "Tennis"
    case Other => "Other"
  }

  /** The enum list, in the order the server declares it. */
  const EnumNames: seq<string> :=
    ["Running", "Cycling", "Weightlifting", "Swimming", "Yoga",
     "Walking", "Basketball", "Tennis", "Other"]

  /** Every constructor, in declaration order. */
  const All: seq<Workout> :=
    [Running, Cycling, Weightlifting, Swimming, Yoga,
     Walking, Basketball, Tennis, Other]

  /** The `isIn` check of the validators: is `s` one of the enum names? */
  predicate IsWorkoutName(s: string)
  {
    s in EnumNames
  }

  /** Reads a workout name; absent for any string outside the enum. */
  function Parse(s: string): (r: Option<Workout>)
    ensures r.Some? <==> IsWorkoutName(s)
    ensures r.Some? ==> Name(r.value) == s
  {
    if s == "Running" then Some(Running)
    else if s == "Cycling" then Some(Cycling)
    else if s == "Weightlifting" then Some(Weightlifting)
    else if s == "Swimming" then Some(Swimming)
    else if s == "Yoga" then Some(Yoga)
    else if s == "Walking" then Some(Walking)
    else if s == "Basketball" then Some(Basketball)
    else if s == "Tennis" then Some(Tennis)
    else if s == "Other" then Some(Other)
    else None
  }

  /** Reading back the name of a workout yields that workout. */
  lemma ParseName(w: Workout)
    ensures Parse(Name(w)) == Some(w)
  {
  }

  /** The enum list is exactly the names of the constructors, each once. */
  lemma EnumNamesAreNames()
    ensures |EnumNames| == 9
    ensures forall i :: 0 <= i < |All| ==> EnumNames[i] == Name(All[i])
    ensures forall w: Workout :: w in All
    ensures forall i, j :: 0 <= i < j < |EnumNames| ==> EnumNames[i] != EnumNames[j]
  {
    forall w: Workout
      ensures w in All
    {
      match w
      case Running => assert All[0] == w;
      case Cycling => assert All[1] == w;
      case Weightlifting => assert All[2] == w;
      case Swimming => assert All[3] == w;
      case Yoga => assert All[4] == w;
      case Walking => assert All[5] == w;
      case Basketball => assert All[6] == w;
      case Tennis => assert All[7] == w;
      case Other => assert All[8] == w;
    }
  }
}
