/**
 The two derived views the entry routes compute on read.

 GET /entries/today/comparison: today's entries newest first, the latest
 of them, today's goal, the totals (absent when there are no entries,
 never zero-valued in that case) and, only when both totals and a goal
 exist, an actual-versus-goal comparison per metric.

 GET /entries/stats/weekly: every entry dated on or after a week ago
 (no upper bound), oldest first, projected to four fields, with the mean
 minutes rounded to an integer and the mean water rounded to one decimal;
 with no entries the means are zero, not absent.

 The clock is a parameter: the caller passes the bounds of today and the
 instant one week ago.
 */
module Aggregation {
  import opened Wrappers
  import opened Workouts
  import opened Records
  import opened Seqs
  import GoalStore
  import EntryStore

  function Minutes(e: Entry): int { e.workoutMinutes }
  function Water(e: Entry): real { e.waterConsumption }
  function NewestFirst(e: Entry): int { -e.createdAt }
  function DateOf(e: Entry): int { e.date }

  // ===== today's comparison =====

  datatype Totals = Totals(workoutMinutes: int, waterConsumption: real)

  datatype Metric<T> = Metric(actual: T, goal: T, achieved: bool)

  datatype Comparison = Comparison(workoutMinutes: Metric<int>, waterConsumption: Metric<real>)

  datatype TodayView = TodayView(
    entries: seq<Entry>,
    entry: Option<Entry>,
    goal: Option<Goal>,
    totals: Option<Totals>,
    comparison: Option<Comparison>)

  /** Is the instant inside today's inclusive window? */
  predicate InDay(date: Instant, dayStart: Instant, dayEnd: Instant)
  {
    dayStart <= date && date <= dayEnd
  }

  /** The response built from today's entries (newest first) and today's
      goal.  Totals are absent exactly when there are no entries; the
      comparison exists exactly when totals and a goal both exist, and a
      metric is achieved exactly when its actual reaches its goal. */
  function Compare(entries: seq<Entry>, goal: Option<Goal>): (v: TodayView)
    ensures v.entries == entries && v.goal == goal
    ensures v.entry.Some? <==> entries != []
    ensures v.entry.Some? ==> v.entry.value == entries[0]
    ensures v.totals.None? <==> entries == []
    ensures v.totals.Some? ==>
      && v.totals.value.workoutMinutes == SumInt(entries, Minutes)
      && v.totals.value.waterConsumption == SumReal(entries, Water)
    ensures v.comparison.Some? <==> v.totals.Some? && goal.Some?
    ensures v.comparison.Some? ==>
      var c := v.comparison.value;
      && c.workoutMinutes.actual == v.totals.value.workoutMinutes
      && c.workoutMinutes.goal == goal.value.workoutMinutes
      && (c.workoutMinutes.achieved <==> c.workoutMinutes.actual >= c.workoutMinutes.goal)
      && c.waterConsumption.actual == v.totals.value.waterConsumption
      && c.waterConsumption.goal == goal.value.waterConsumption
      && (c.waterConsumption.achieved <==> c.waterConsumption.actual >= c.waterConsumption.goal)
  {
    var totals :=
      if |entries| > 0 then Some(Totals(SumInt(entries, Minutes), SumReal(entries, Water)))
      else None;
    TodayView(
      entries,
      if |entries| > 0 then Some(entries[0]) else None,
      goal,
      totals,
      if totals.Some? && goal.Some? then
        var t := totals.value;
        var g := goal.value;
        Some(Comparison(
          Metric(t.workoutMinutes, g.workoutMinutes, t.workoutMinutes >= g.workoutMinutes),
          Metric(t.waterConsumption, g.waterConsumption, t.waterConsumption >= g.waterConsumption)))
      else None)
  }

  /** The caller's entries inside today's window, in store order. */
  function InWindow(s: EntryStore.Store, user: UserId, dayStart: Instant, dayEnd: Instant): seq<Entry>
  {
    Filter(s.entries, (e: Entry) => e.userId == user && InDay(e.date, dayStart, dayEnd))
  }

  /** `Entry.find({userId, date in window}).sort({createdAt: -1})`. */
  function TodayEntries(s: EntryStore.Store, user: UserId, dayStart: Instant, dayEnd: Instant): (r: seq<Entry>)
    ensures forall e :: e in r <==> e in s.entries && e.userId == user && InDay(e.date, dayStart, dayEnd)
    ensures forall i, j :: 0 <= i < j < |r| ==> r[i].createdAt >= r[j].createdAt
    ensures multiset(r) == multiset(InWindow(s, user, dayStart, dayEnd))
  {
    var mine := InWindow(s, user, dayStart, dayEnd);
    FilterMembers(s.entries, (e: Entry) => e.userId == user && InDay(e.date, dayStart, dayEnd));
    var r := SortBy(mine, NewestFirst);
    assert forall e :: e in r <==> e in mine by {
      forall e ensures e in r <==> e in mine {
        assert e in r <==> e in multiset(r);
      }
    }
    assert forall i, j :: 0 <= i < j < |r| ==> NewestFirst(r[i]) <= NewestFirst(r[j]);
    r
  }

  /** `Goal.findOne({userId, date in window})`: one such goal, or null.
      `findOne` without a sort does not say which; the model takes the
      first in store order, and the contract promises only that the
      answer is one of them. */
  function TodayGoal(s: GoalStore.Store, user: UserId, dayStart: Instant, dayEnd: Instant): (r: Option<Goal>)
    ensures r.Some? ==> r.value in s.goals && r.value.userId == user && InDay(r.value.date, dayStart, dayEnd)
    ensures r.None? <==> forall i :: 0 <= i < |s.goals| ==> !(s.goals[i].userId == user && InDay(s.goals[i].date, dayStart, dayEnd))
  {
    var k := FindFirst(s.goals, (g: Goal) => g.userId == user && InDay(g.date, dayStart, dayEnd));
    if k < |s.goals| then Some(s.goals[k]) else None
  }

  /** GET /entries/today/comparison. */
  function TodayComparison(es: EntryStore.Store, gs: GoalStore.Store, user: UserId, dayStart: Instant, dayEnd: Instant): (v: TodayView)
    ensures v.entry.Some? ==>
      v.entry.value in es.entries && v.entry.value.userId == user && InDay(v.entry.value.date, dayStart, dayEnd)
    ensures v.entry.None? <==> forall e :: e in es.entries ==> !(e.userId == user && InDay(e.date, dayStart, dayEnd))
    ensures v.goal.Some? ==>
      v.goal.value in gs.goals && v.goal.value.userId == user && InDay(v.goal.value.date, dayStart, dayEnd)
    ensures v.comparison.Some? <==> v.entry.Some? && v.goal.Some?
  {
    Compare(TodayEntries(es, user, dayStart, dayEnd), TodayGoal(gs, user, dayStart, dayEnd))
  }

  /** The view against the store: totals are absent exactly when the
      caller logged nothing today and otherwise are the sums over all of
      today's entries however the store orders them; `entry` is the most
      recently created of today's entries; the comparison exists exactly
      when an entry and a goal both fall in today's window. */
  lemma TodayComparisonAgainstStore(es: EntryStore.Store, gs: GoalStore.Store, user: UserId, dayStart: Instant, dayEnd: Instant)
    ensures var v := TodayComparison(es, gs, user, dayStart, dayEnd);
      var today := InWindow(es, user, dayStart, dayEnd);
      && (v.totals.None? <==> today == [])
      && (v.totals.Some? ==>
            v.totals.value == Totals(SumInt(today, Minutes), SumReal(today, Water)))
      && (v.entry.Some? ==>
            && v.entry.value in today
            && forall e :: e in today ==> e.createdAt <= v.entry.value.createdAt)
      && (v.comparison.Some? <==> today != [] && TodayGoal(gs, user, dayStart, dayEnd).Some?)
  {
    var v := TodayComparison(es, gs, user, dayStart, dayEnd);
    var today := InWindow(es, user, dayStart, dayEnd);
    var sorted := TodayEntries(es, user, dayStart, dayEnd);
    assert |sorted| == |today| by {
      assert |multiset(sorted)| == |multiset(today)|;
    }
    SumIntPermutation(sorted, today, Minutes);
    SumRealPermutation(sorted, today, Water);
    if v.entry.Some? {
      assert v.entry.value in multiset(today);
      forall e | e in today
        ensures e.createdAt <= v.entry.value.createdAt
      {
        assert e in multiset(sorted);
        SortedHeadIsLeast(sorted, NewestFirst, e);
      }
    }
  }

  /** With the schema in force, totals are never negative. */
  lemma TotalsNonNegative(entries: seq<Entry>, goal: Option<Goal>)
    requires forall i :: 0 <= i < |entries| ==> EntrySchemaValid(entries[i])
    ensures Compare(entries, goal).totals.Some? ==>
      Compare(entries, goal).totals.value.workoutMinutes >= 0 &&
      Compare(entries, goal).totals.value.waterConsumption >= 0.0
  {
    SumIntNonNegative(entries, Minutes);
    SumRealNonNegative(entries, Water);
  }

  // ===== weekly stats =====

  datatype DayStat = DayStat(date: Instant, workoutMinutes: int, waterConsumption: real, workout: Workout)

  datatype Averages = Averages(workoutMinutes: int, waterConsumption: real)

  datatype WeeklyStats = WeeklyStats(weeklyStats: seq<DayStat>, averages: Averages, totalEntries: nat)

  /** `Math.round`: the nearest integer, halves rounding up. */
  function JsRound(x: real): (r: int)
    ensures r as real - 0.5 <= x < r as real + 0.5
  {
    (x + 0.5).Floor
  }

  /** The four fields the weekly list keeps of an entry. */
  function Project(e: Entry): (d: DayStat)
  {
    DayStat(e.date, e.workoutMinutes, e.waterConsumption, e.workout)
  }

  function ProjectAll(entries: seq<Entry>): (r: seq<DayStat>)
    ensures |r| == |entries|
    ensures forall i :: 0 <= i < |entries| ==> r[i] == Project(entries[i])
  {
    if |entries| == 0 then [] else [Project(entries[0])] + ProjectAll(entries[1..])
  }

  /** Reordering the entries reorders their rows the same way. */
  lemma {:induction false} ProjectAllPermutation(a: seq<Entry>, b: seq<Entry>)
    requires multiset(a) == multiset(b)
    ensures multiset(ProjectAll(a)) == multiset(ProjectAll(b))
    decreases |a|
  {
    if |a| == 0 {
      assert |multiset(b)| == 0;
    } else {
      var i := IndexIn(b, a[0]);
      var rest := b[..i] + b[i + 1..];
      PermutationTail(a, b, i);
      ProjectAllPermutation(a[1..], rest);
      ProjectAllRemove(b, i);
      assert ProjectAll(a) == [Project(a[0])] + ProjectAll(a[1..]);
    }
  }

  /** The rows of `b` are those of `b` without position `i`, plus that
      position's row. */
  lemma ProjectAllRemove(b: seq<Entry>, i: nat)
    requires i < |b|
    ensures multiset(ProjectAll(b)) == multiset{Project(b[i])} + multiset(ProjectAll(b[..i] + b[i + 1..]))
  {
    var pre, post := b[..i], b[i + 1..];
    assert b == pre + ([b[i]] + post);
    ProjectAllAppend(pre, [b[i]] + post);
    ProjectAllAppend([b[i]], post);
    ProjectAllAppend(pre, post);
    var x, y := ProjectAll(pre), ProjectAll(post);
    assert ProjectAll([b[i]]) == [Project(b[i])];
    assert ProjectAll(b) == x + ([Project(b[i])] + y);
    assert ProjectAll(pre + post) == x + y;
    MultisetSplice(x, Project(b[i]), y);
  }

  /** Rows of a concatenation are the concatenated rows. */
  lemma ProjectAllAppend(x: seq<Entry>, y: seq<Entry>)
    ensures ProjectAll(x + y) == ProjectAll(x) + ProjectAll(y)
  {
    var r := ProjectAll(x) + ProjectAll(y);
    forall i | 0 <= i < |x + y|
      ensures ProjectAll(x + y)[i] == r[i]
    {
      if i < |x| {
        assert (x + y)[i] == x[i];
      } else {
        assert (x + y)[i] == y[i - |x|];
      }
    }
  }

  /** The weekly response built from the week's entries.  The means divide
      by the number of entries (not of distinct days): minutes to the
      nearest integer, water to the nearest tenth; with no entries both
      are zero. */
  function Summarize(entries: seq<Entry>): (w: WeeklyStats)
    ensures w.totalEntries == |entries| == |w.weeklyStats|
    ensures forall i :: 0 <= i < |entries| ==> w.weeklyStats[i] == Project(entries[i])
    ensures entries == [] ==> w.averages == Averages(0, 0.0)
    ensures entries != [] ==>
      var mean := SumInt(entries, Minutes) as real / |entries| as real;
      w.averages.workoutMinutes as real - 0.5 <= mean < w.averages.workoutMinutes as real + 0.5
    ensures entries != [] ==>
      var mean := SumReal(entries, Water) / |entries| as real;
      var tenths := w.averages.waterConsumption * 10.0;
      && tenths == tenths.Floor as real
      && tenths - 0.5 <= mean * 10.0 < tenths + 0.5
  {
    var averages :=
      if |entries| > 0 then
        var n := |entries| as real;
        var tenths := JsRound(SumReal(entries, Water) / n * 10.0);
        TenthsScaleBack(tenths);
        Averages(JsRound(SumInt(entries, Minutes) as real / n), tenths as real / 10.0)
      else Averages(0, 0.0);
    WeeklyStats(ProjectAll(entries), averages, |entries|)
  }

  /** A count of tenths survives the division by ten and the
      multiplication back. */
  lemma TenthsScaleBack(k: int)
    ensures (k as real / 10.0) * 10.0 == k as real
    ensures ((k as real / 10.0) * 10.0).Floor == k
  {
  }

  /** The caller's entries dated on or after `since`, in store order. */
  function SinceWeekAgo(s: EntryStore.Store, user: UserId, since: Instant): seq<Entry>
  {
    Filter(s.entries, (e: Entry) => e.userId == user && e.date >= since)
  }

  /** `Entry.find({userId, date >= since}).sort({date: 1})`. */
  function WeekEntries(s: EntryStore.Store, user: UserId, since: Instant): (r: seq<Entry>)
    ensures forall e :: e in r <==> e in s.entries && e.userId == user && e.date >= since
    ensures forall i, j :: 0 <= i < j < |r| ==> r[i].date <= r[j].date
    ensures multiset(r) == multiset(SinceWeekAgo(s, user, since))
  {
    var mine := SinceWeekAgo(s, user, since);
    FilterMembers(s.entries, (e: Entry) => e.userId == user && e.date >= since);
    var r := SortBy(mine, DateOf);
    assert forall e :: e in r <==> e in mine by {
      forall e ensures e in r <==> e in mine {
        assert e in r <==> e in multiset(r);
      }
    }
    r
  }

  /** GET /entries/stats/weekly. */
  function Weekly(s: EntryStore.Store, user: UserId, since: Instant): (w: WeeklyStats)
    ensures w.totalEntries == |w.weeklyStats|
    ensures forall i :: 0 <= i < |w.weeklyStats| ==> w.weeklyStats[i].date >= since
    ensures forall i, j :: 0 <= i < j < |w.weeklyStats| ==> w.weeklyStats[i].date <= w.weeklyStats[j].date
  {
    var week := WeekEntries(s, user, since);
    assert forall i :: 0 <= i < |week| ==> week[i].date >= since by {
      forall i | 0 <= i < |week|
        ensures week[i].date >= since
      {
        assert week[i] in week;
      }
    }
    Summarize(week)
  }

  /** The weekly view against the store: one row per matching entry in
      ascending date order, each row a projection of one of the caller's
      entries dated on or after `since` (however far in the future), the
      count of such entries, and means computed over all of them. */
  lemma WeeklyAgainstStore(s: EntryStore.Store, user: UserId, since: Instant)
    ensures var w := Weekly(s, user, since);
      var week := SinceWeekAgo(s, user, since);
      && w.totalEntries == |week|
      && multiset(w.weeklyStats) == multiset(ProjectAll(week))
      && (forall i, j :: 0 <= i < j < |w.weeklyStats| ==> w.weeklyStats[i].date <= w.weeklyStats[j].date)
      && (forall i :: 0 <= i < |w.weeklyStats| ==>
            exists e :: e in s.entries && e.userId == user && e.date >= since && w.weeklyStats[i] == Project(e))
      && (week == [] ==> w.averages == Averages(0, 0.0))
      && (week != [] ==>
            var mean := SumInt(week, Minutes) as real / |week| as real;
            w.averages.workoutMinutes as real - 0.5 <= mean < w.averages.workoutMinutes as real + 0.5)
      && (week != [] ==>
            var mean := SumReal(week, Water) / |week| as real;
            var tenths := w.averages.waterConsumption * 10.0;
            && tenths == tenths.Floor as real
            && tenths - 0.5 <= mean * 10.0 < tenths + 0.5)
  {
    WeeklyRowsAgainstStore(s, user, since);
    WeeklyMeansAgainstStore(s, user, since);
  }

  /** The rows of the weekly view: the matching entries' projections,
      each once, in ascending date order. */
  lemma WeeklyRowsAgainstStore(s: EntryStore.Store, user: UserId, since: Instant)
    ensures var w := Weekly(s, user, since);
      && multiset(w.weeklyStats) == multiset(ProjectAll(SinceWeekAgo(s, user, since)))
      && (forall i, j :: 0 <= i < j < |w.weeklyStats| ==> w.weeklyStats[i].date <= w.weeklyStats[j].date)
      && (forall i :: 0 <= i < |w.weeklyStats| ==>
            exists e :: e in s.entries && e.userId == user && e.date >= since && w.weeklyStats[i] == Project(e))
  {
    var w := Weekly(s, user, since);
    var sorted := WeekEntries(s, user, since);
    assert w.weeklyStats == ProjectAll(sorted);
    ProjectAllPermutation(sorted, SinceWeekAgo(s, user, since));
    forall i | 0 <= i < |w.weeklyStats|
      ensures exists e :: e in s.entries && e.userId == user && e.date >= since && w.weeklyStats[i] == Project(e)
    {
      assert sorted[i] in sorted;
    }
  }

  /** The count and the means of the weekly view are those of the
      matching entries in store order. */
  lemma WeeklyMeansAgainstStore(s: EntryStore.Store, user: UserId, since: Instant)
    ensures var w := Weekly(s, user, since);
      var week := SinceWeekAgo(s, user, since);
      && w.totalEntries == |week|
      && (week == [] ==> w.averages == Averages(0, 0.0))
      && (week != [] ==>
            var mean := SumInt(week, Minutes) as real / |week| as real;
            w.averages.workoutMinutes as real - 0.5 <= mean < w.averages.workoutMinutes as real + 0.5)
      && (week != [] ==>
            var mean := SumReal(week, Water) / |week| as real;
            var tenths := w.averages.waterConsumption * 10.0;
            && tenths == tenths.Floor as real
            && tenths - 0.5 <= mean * 10.0 < tenths + 0.5)
  {
    var week := SinceWeekAgo(s, user, since);
    var sorted := WeekEntries(s, user, since);
    assert |sorted| == |week| by {
      assert |multiset(sorted)| == |multiset(week)|;
    }
    SumIntPermutation(sorted, week, Minutes);
    SumRealPermutation(sorted, week, Water);
  }

  /** Sums of values inside [lo, hi] lie between n*lo and n*hi. */
  lemma {:induction false} SumIntBetween(entries: seq<Entry>, lo: int, hi: int)
    requires forall i :: 0 <= i < |entries| ==> lo <= entries[i].workoutMinutes <= hi
    ensures |entries| * lo <= SumInt(entries, Minutes) <= |entries| * hi
    decreases |entries|
  {
    if |entries| > 0 {
      SumIntBetween(entries[1..], lo, hi);
    }
  }

  /** Dividing bounds by a positive count. */
  lemma MeanBetween(sum: real, n: real, lo: real, hi: real)
    requires n > 0.0
    requires n * lo <= sum <= n * hi
    ensures lo <= sum / n <= hi
  {
    var mean := sum / n;
    assert mean * n == sum;
  }

  /** The rounded mean of the minutes lies between the least and the
      greatest minutes of the week. */
  lemma AverageMinutesWithinRange(entries: seq<Entry>, lo: int, hi: int)
    requires entries != []
    requires forall i :: 0 <= i < |entries| ==> lo <= entries[i].workoutMinutes <= hi
    ensures lo <= Summarize(entries).averages.workoutMinutes <= hi
  {
    var n := |entries|;
    var sum := SumInt(entries, Minutes);
    SumIntBetween(entries, lo, hi);
    assert (n * lo) as real == n as real * lo as real;
    assert (n * hi) as real == n as real * hi as real;
    MeanBetween(sum as real, n as real, lo as real, hi as real);
  }

  // ===== worked examples =====

  function SampleEntry(id: RecordId, minutes: int, water: real): Entry
  {
    Entry(id, 1, 0, Running, minutes, water, "22:30", "6:30", id)
  }

  function SampleGoal(minutes: int, water: real): Goal
  {
    Goal(0, 1, 0, Running, minutes, 300, water, "22:00", "06:00", BloodPressure(120, 80), 70, 0)
  }

  /** Entries of 30 and 20 minutes (1.0 l and 0.5 l) against a goal of
      40 minutes and 2.0 l: minutes achieved, water not. */
  lemma TodayExample()
    ensures var v := Compare([SampleEntry(2, 30, 1.0), SampleEntry(1, 20, 0.5)], Some(SampleGoal(40, 2.0)));
      && v.totals == Some(Totals(50, 1.5))
      && v.comparison == Some(Comparison(Metric(50, 40, true), Metric(1.5, 2.0, false)))
  {
    var es := [SampleEntry(2, 30, 1.0), SampleEntry(1, 20, 0.5)];
    assert es[1..][1..] == [];
    assert SumInt(es, Minutes) == 50;
    assert SumReal(es, Water) == 1.5;
  }

  /** A goal without entries yields no totals and no comparison. */
  lemma TodayGoalWithoutEntries(g: Goal)
    ensures Compare([], Some(g)).totals.None?
    ensures Compare([], Some(g)).comparison.None?
    ensures Compare([], Some(g)).entry.None?
  {
  }

  /** Minutes 10, 20, 30 average to 20; water 1.0, 1.5, 2.0 averages to 1.5. */
  lemma WeeklyExample()
    ensures Summarize([SampleEntry(0, 10, 1.0), SampleEntry(1, 20, 1.5), SampleEntry(2, 30, 2.0)]).averages
      == Averages(20, 1.5)
  {
    var es := [SampleEntry(0, 10, 1.0), SampleEntry(1, 20, 1.5), SampleEntry(2, 30, 2.0)];
    assert es[1..][1..][1..] == [];
    assert SumInt(es, Minutes) == 60;
    assert SumReal(es, Water) == 4.5;
    assert JsRound(60 as real / 3.0) == 20;
    assert JsRound(4.5 / 3.0 * 10.0) == 15;
  }

  /** No entries in the week: an empty list, zero means, zero count. */
  lemma WeeklyEmpty()
    ensures Summarize([]) == WeeklyStats([], Averages(0, 0.0), 0)
  {
  }
}
