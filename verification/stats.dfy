/** The statistics `getStats` derives from the progress list in
    src/components/ProblemList.tsx: counts, the rounded completion percentage
    and the streak of consecutive completion days. */
module Stats {
  import opened Types
  import opened Collections
  import opened Text
  import opened Queries

  /** Total and completed items of one difficulty. */
  datatype Bucket = Bucket(total: nat, completed: nat)

  /** The derived statistics shown on the dashboard. */
  datatype Stats = Stats(
    total: nat,
    completed: nat,
    progress: nat,
    easy: Bucket,
    medium: Bucket,
    hard: Bucket,
    streak: nat)

  function Abs(x: int): nat {
    if x < 0 then -x else x
  }

  function Max(a: nat, b: nat): nat {
    if a < b then b else a
  }

  /** `total > 0 ? Math.round(completed / total * 100) : 0` in exact
      arithmetic: the integer nearest to 100 * completed / total, halves
      rounded up. */
  function Percent(completed: nat, total: nat): (r: nat)
    ensures total == 0 ==> r == 0
    ensures total > 0 ==> 2 * r * total - total <= 200 * completed < 2 * r * total + total
    ensures completed <= total ==> r <= 100
  {
    if total > 0 then
      var r := (200 * completed + total) / (2 * total);
      PercentBounds(completed, total, r);
      r
    else 0
  }

  /** The quotient computed by `Percent` lies within half a unit of the exact
      percentage, and does not exceed 100 when nothing exceeds the total. */
  lemma PercentBounds(completed: nat, total: nat, r: nat)
    requires total > 0
    requires r == (200 * completed + total) / (2 * total)
    ensures 2 * r * total - total <= 200 * completed < 2 * r * total + total
    ensures completed <= total ==> r <= 100
  {
    var n := 200 * completed + total;
    var d := 2 * total;
    assert n == r * d + n % d && 0 <= n % d < d;
    assert 2 * r * total == r * d;
    if completed <= total {
      assert r * d < 101 * d;
    }
  }

  /** Positions `a` to `b - 1` of `days` form a block in which neighbours are
      exactly one day apart. */
  ghost predicate IsRun(days: seq<int>, a: int, b: int) {
    && 0 <= a < b <= |days|
    && forall k :: a < k < b ==> Abs(days[k] - days[k - 1]) == 1
  }

  /** A block that starts after a break cannot be extended to the left past it. */
  lemma RunsDoNotCrossBreaks(days: seq<int>, a: int, b: int, k: int)
    requires IsRun(days, a, b)
    requires a < k < b
    ensures Abs(days[k] - days[k - 1]) == 1
  {
  }

  /** The loop invariant at position `i`: `current` is the length of the
      block ending at `i - 1`, which a break precedes, and `streak` is the
      longest block closed so far. */
  ghost predicate StreakInvariant(days: seq<int>, i: nat, streak: nat, current: nat) {
    && 1 <= i <= Max(1, |days|)
    && 1 <= current <= i
    && (|days| > 0 ==> IsRun(days, i - current, i))
    && (|days| > 0 && current < i ==> Abs(days[i - current] - days[i - current - 1]) != 1)
    && (forall a, b :: IsRun(days, a, b) && b <= i ==> b - a <= Max(streak, current))
    && (streak == 0 || exists a, b :: IsRun(days, a, b) && b - a == streak)
  }

  /** What the loop computes: a value of at least 1 that bounds every block of
      neighbours one day apart and is the length of one of them, or 1 when
      there is no day. */
  ghost predicate LongestRun(days: seq<int>, r: nat) {
    && r >= 1
    && (forall a, b :: IsRun(days, a, b) ==> b - a <= r)
    && (|days| > 0 ==> exists a, b :: IsRun(days, a, b) && b - a == r)
    && (|days| == 0 ==> r == 1)
  }

  /** The streak loop from position `i` on, with `streak` the longest block
      closed so far and `current` the length of the block ending at `i - 1`.
      The requires is the loop invariant, the ensures what the loop computes
      once it ends. */
  function StreakLoop(days: seq<int>, i: nat, streak: nat, current: nat): (r: nat)
    requires StreakInvariant(days, i, streak, current)
    ensures r >= 1
    ensures forall a, b :: IsRun(days, a, b) ==> b - a <= r
    ensures |days| > 0 ==> exists a, b :: IsRun(days, a, b) && b - a == r
    ensures |days| == 0 ==> r == 1
    decreases |days| - i
  {
    if i >= |days| then
      StreakDone(days, i, streak, current);
      Max(streak, current)
    else if Abs(days[i] - days[i - 1]) == 1 then
      StreakExtend(days, i, streak, current);
      StreakLoop(days, i + 1, streak, current + 1)
    else
      StreakBreak(days, i, streak, current);
      StreakLoop(days, i + 1, Max(streak, current), 1)
  }

  /** When the loop ends, `Math.max(streak, currentStreak)` is the longest block. */
  lemma StreakDone(days: seq<int>, i: nat, streak: nat, current: nat)
    requires StreakInvariant(days, i, streak, current)
    requires i >= |days|
    ensures LongestRun(days, Max(streak, current))
  {
    if |days| > 0 {
      assert IsRun(days, i - current, i);
    }
  }

  /** The invariant step when position `i` continues the current block. */
  lemma StreakExtend(days: seq<int>, i: nat, streak: nat, current: nat)
    requires StreakInvariant(days, i, streak, current)
    requires i < |days| && Abs(days[i] - days[i - 1]) == 1
    ensures StreakInvariant(days, i + 1, streak, current + 1)
  {
    assert IsRun(days, i - current, i + 1);
    forall a, b | IsRun(days, a, b) && b <= i + 1
      ensures b - a <= Max(streak, current + 1)
    {
      if b == i + 1 && a < i - current {
        RunsDoNotCrossBreaks(days, a, b, i - current);
      }
    }
  }

  /** The invariant step when position `i` starts a new block. */
  lemma StreakBreak(days: seq<int>, i: nat, streak: nat, current: nat)
    requires StreakInvariant(days, i, streak, current)
    requires i < |days| && Abs(days[i] - days[i - 1]) != 1
    ensures StreakInvariant(days, i + 1, Max(streak, current), 1)
  {
    assert IsRun(days, i, i + 1);
    assert IsRun(days, i - current, i);
    forall a, b | IsRun(days, a, b) && b <= i + 1
      ensures b - a <= Max(streak, current)
    {
      if b == i + 1 && a < i {
        RunsDoNotCrossBreaks(days, a, b, i);
      }
    }
  }

  /** The streak loop over the distinct completion days in the order given:
      the length of the longest block of neighbours exactly one day apart,
      and 1 (not 0) when there is no day at all. */
  function Streak(days: seq<int>): (r: nat)
    ensures 1 <= r <= Max(1, |days|)
    ensures forall a, b :: IsRun(days, a, b) ==> b - a <= r
    ensures |days| > 0 ==> exists a, b :: IsRun(days, a, b) && b - a == r
    ensures |days| == 0 ==> r == 1
  {
    StreakLoop(days, 1, 0, 1)
  }

  /** Without any completion day the streak reads 1. */
  lemma NoDaysStreakIsOne()
    ensures Streak([]) == 1
  {
  }

  /** Four days with one day missing before the last give a streak of three. */
  lemma GapBreaksStreak()
    ensures Streak([1, 2, 3, 5]) == 3
  {
    var days := [1, 2, 3, 5];
    assert IsRun(days, 0, 3);
    forall a, b | IsRun(days, a, b)
      ensures b - a <= 3
    {
      if a < 3 < b {
        RunsDoNotCrossBreaks(days, a, b, 3);
      }
    }
  }

  const Thu9: string := "Thu Jan 09 2025"
  const Fri10: string := "Fri Jan 10 2025"
  const Sat11: string := "Sat Jan 11 2025"

  /** The Friday and Saturday labels are already in string order. */
  lemma FridayBeforeSaturday()
    ensures Sort([Fri10, Sat11]) == [Fri10, Sat11]
  {
    assert LexLe(Fri10, Sat11);
    assert [Fri10, Sat11][1..] == [Sat11];
    assert Sort([Sat11]) == [Sat11];
  }

  /** The Thursday label sorts after both of them. */
  lemma ThursdayAfterBoth()
    ensures Insert(Thu9, [Fri10, Sat11]) == [Fri10, Sat11, Thu9]
  {
    assert !LexLe(Thu9, Fri10) && !LexLe(Thu9, Sat11);
    assert [Fri10, Sat11][1..] == [Sat11];
    assert Insert(Thu9, [Sat11]) == [Sat11, Thu9];
  }

  /** `toDateString()` labels start with the weekday, so the string sort puts
      Friday 10, Saturday 11 and Thursday 9 January in that order. */
  lemma WeekdayLabelsSortOutOfOrder()
    ensures Sort([Thu9, Fri10, Sat11]) == [Fri10, Sat11, Thu9]
  {
    assert [Thu9, Fri10, Sat11][1..] == [Fri10, Sat11];
    FridayBeforeSaturday();
    ThursdayAfterBoth();
  }

  /** In that order the loop sees days 10, 11, 9 and reports 2 where the
      three days in calendar order form a streak of 3. */
  lemma WeekdayOrderShortensStreak()
    ensures Streak([10, 11, 9]) == 2
    ensures Streak([9, 10, 11]) == 3
  {
    var shuffled := [10, 11, 9];
    assert IsRun(shuffled, 0, 2);
    forall a, b | IsRun(shuffled, a, b)
      ensures b - a <= 2
    {
      if a < 2 < b {
        RunsDoNotCrossBreaks(shuffled, a, b, 2);
      }
    }
    assert IsRun([9, 10, 11], 0, 3);
  }

  /** The completion timestamp of an item with a date. */
  function Timestamp(p: Problem): string {
    match p.completedDate
    case Some(t) => t
    case None => ""
  }

  /** The date labels of the dated completions, in list order. */
  function CompletionLabels(ps: seq<Problem>, dateLabel: string -> string): (r: seq<string>)
    ensures |r| == |Select(ps, And(IsCompleted, HasDate))|
    ensures forall i :: 0 <= i < |r| ==>
      r[i] == dateLabel(Timestamp(Select(ps, And(IsCompleted, HasDate))[i]))
  {
    var dated := Select(ps, And(IsCompleted, HasDate));
    seq(|dated|, i requires 0 <= i < |dated| => dateLabel(Timestamp(dated[i])))
  }

  /** `[...new Set(completedDates)].sort()`: every completion label once, in
      ascending string order. */
  function UniqueSortedLabels(ps: seq<Problem>, dateLabel: string -> string): (r: seq<string>)
    ensures Sorted(r)
    ensures NoDup(r)
    ensures forall i :: 0 <= i < |r| ==> r[i] in CompletionLabels(ps, dateLabel)
    ensures forall i :: 0 <= i < |CompletionLabels(ps, dateLabel)| ==>
      CompletionLabels(ps, dateLabel)[i] in r
    ensures |r| <= |CompletionLabels(ps, dateLabel)|
  {
    var labels := CompletionLabels(ps, dateLabel);
    var d := Distinct(labels);
    var r := Sort(d);
    NoDupPermutation(d, r);
    assert |r| == |multiset(r)| == |multiset(d)| == |d|;
    forall i | 0 <= i < |r| ensures r[i] in labels {
      assert r[i] in multiset(r);
    }
    forall i | 0 <= i < |labels| ensures labels[i] in r {
      assert labels[i] in multiset(d);
    }
    r
  }

  /** The days the streak loop walks: the distinct labels in string order,
      each turned back into a day number. */
  function StreakDays(ps: seq<Problem>, dateLabel: string -> string, dayNumber: string -> int): (r: seq<int>)
    ensures |r| == |UniqueSortedLabels(ps, dateLabel)|
    ensures forall i :: 0 <= i < |r| ==> r[i] == dayNumber(UniqueSortedLabels(ps, dateLabel)[i])
    ensures |r| <= |Select(ps, And(IsCompleted, HasDate))|
  {
    var sorted := UniqueSortedLabels(ps, dateLabel);
    seq(|sorted|, i requires 0 <= i < |sorted| => dayNumber(sorted[i]))
  }

  /** `getStats()`. `dateLabel` stands for `new Date(t).toDateString()` and
      `dayNumber` for the calendar day a label denotes. */
  function GetStats(ps: seq<Problem>, dateLabel: string -> string, dayNumber: string -> int): (s: Stats)
    ensures s.total == |ps|
    ensures s.completed == |Positions(ps, IsCompleted)|
    ensures s.completed <= s.total
    ensures s.easy.completed <= s.easy.total
    ensures s.medium.completed <= s.medium.total
    ensures s.hard.completed <= s.hard.total
    ensures s.easy.total + s.medium.total + s.hard.total == s.total
    ensures s.easy == Bucket(|Positions(ps, HasDifficulty(Easy))|,
                             |Positions(ps, And(HasDifficulty(Easy), IsCompleted))|)
    ensures s.medium == Bucket(|Positions(ps, HasDifficulty(Medium))|,
                               |Positions(ps, And(HasDifficulty(Medium), IsCompleted))|)
    ensures s.hard == Bucket(|Positions(ps, HasDifficulty(Hard))|,
                             |Positions(ps, And(HasDifficulty(Hard), IsCompleted))|)
    ensures s.total == 0 ==> s.progress == 0
    ensures s.total > 0 ==>
      2 * s.progress * s.total - s.total <= 200 * s.completed < 2 * s.progress * s.total + s.total
    ensures s.progress <= 100
    ensures s.streak == Streak(StreakDays(ps, dateLabel, dayNumber))
    ensures 1 <= s.streak <= Max(1, s.completed)
  {
    var completed := |Select(ps, IsCompleted)|;
    SelectCountsPositions(ps, IsCompleted);
    SelectCountsPositions(ps, HasDifficulty(Easy));
    SelectCountsPositions(ps, HasDifficulty(Medium));
    SelectCountsPositions(ps, HasDifficulty(Hard));
    SelectCountsPositions(ps, And(HasDifficulty(Easy), IsCompleted));
    SelectCountsPositions(ps, And(HasDifficulty(Medium), IsCompleted));
    SelectCountsPositions(ps, And(HasDifficulty(Hard), IsCompleted));
    DifficultiesPartition(ps);
    BucketCompletedWithinTotal(ps, Easy);
    BucketCompletedWithinTotal(ps, Medium);
    BucketCompletedWithinTotal(ps, Hard);
    DatedCompletionsAreCompletions(ps);
    Stats(
      |ps|,
      completed,
      Percent(completed, |ps|),
      Bucket(|Select(ps, HasDifficulty(Easy))|, |Select(ps, And(HasDifficulty(Easy), IsCompleted))|),
      Bucket(|Select(ps, HasDifficulty(Medium))|, |Select(ps, And(HasDifficulty(Medium), IsCompleted))|),
      Bucket(|Select(ps, HasDifficulty(Hard))|, |Select(ps, And(HasDifficulty(Hard), IsCompleted))|),
      Streak(StreakDays(ps, dateLabel, dayNumber)))
  }

  /** A difficulty's completed count never exceeds its total. */
  lemma BucketCompletedWithinTotal(ps: seq<Problem>, d: Difficulty)
    ensures |Select(ps, And(HasDifficulty(d), IsCompleted))| <= |Select(ps, HasDifficulty(d))|
  {
    forall i | 0 <= i < |ps| && Holds(And(HasDifficulty(d), IsCompleted), ps[i])
      ensures Holds(HasDifficulty(d), ps[i])
    {
      HoldsAnd(HasDifficulty(d), IsCompleted, ps[i]);
    }
    SelectMonotone(ps, And(HasDifficulty(d), IsCompleted), HasDifficulty(d));
  }

  /** Dated completions are a subset of the completions. */
  lemma DatedCompletionsAreCompletions(ps: seq<Problem>)
    ensures |Select(ps, And(IsCompleted, HasDate))| <= |Select(ps, IsCompleted)|
  {
    forall i | 0 <= i < |ps| && Holds(And(IsCompleted, HasDate), ps[i])
      ensures Holds(IsCompleted, ps[i])
    {
      HoldsAnd(IsCompleted, HasDate, ps[i]);
    }
    SelectMonotone(ps, And(IsCompleted, HasDate), IsCompleted);
  }

  /** With no dated completion the dashboard shows a streak of 1, not 0. */
  lemma NoCompletionsStreakIsOne(ps: seq<Problem>, dateLabel: string -> string, dayNumber: string -> int)
    requires forall i :: 0 <= i < |ps| ==> !ps[i].completed
    ensures GetStats(ps, dateLabel, dayNumber).streak == 1
    ensures GetStats(ps, dateLabel, dayNumber).completed == 0
  {
    DatedCompletionsAreCompletions(ps);
    assert |Select(ps, IsCompleted)| == 0 by {
      SelectCountsPositions(ps, IsCompleted);
      assert Positions(ps, IsCompleted) == {};
    }
  }

  /** A problem completed at `stamp`; the other fields play no part in the streak. */
  function Solved(title: string, stamp: string): Problem {
    Problem(title, 1, 1, "", Easy, RefNumber(1), "", true, Some(stamp))
  }

  /** Three problems solved on Thursday 9, Friday 10 and Saturday 11 January 2025. */
  const ThreeDays: seq<Problem> := [
    Solved("A", "2025-01-09T12:00:00.000Z"),
    Solved("B", "2025-01-10T12:00:00.000Z"),
    Solved("C", "2025-01-11T12:00:00.000Z")]

  /** `new Date(t).toDateString()` on the three timestamps. */
  function ExampleLabel(t: string): string {
    if t == "2025-01-09T12:00:00.000Z" then Thu9
    else if t == "2025-01-10T12:00:00.000Z" then Fri10
    else Sat11
  }

  /** The calendar day of each of the three labels. */
  function ExampleDay(l: string): int {
    if l == Thu9 then 9 else if l == Fri10 then 10 else 11
  }

  /** All three problems are dated completions. */
  lemma ThreeDaysAllDated()
    ensures Select(ThreeDays, And(IsCompleted, HasDate)) == ThreeDays
  {
    var q := And(IsCompleted, HasDate);
    forall i | 0 <= i < |ThreeDays| ensures Holds(q, ThreeDays[i]) {
      HoldsAnd(IsCompleted, HasDate, ThreeDays[i]);
    }
    SelectKeepsAll(ThreeDays, q);
  }

  /** Their labels, in list order. */
  lemma ThreeDaysLabels()
    ensures CompletionLabels(ThreeDays, ExampleLabel) == [Thu9, Fri10, Sat11]
  {
    ThreeDaysAllDated();
    var r := CompletionLabels(ThreeDays, ExampleLabel);
    assert r[0] == Thu9 && r[1] == Fri10 && r[2] == Sat11;
    ThreeElements(r, Thu9, Fri10, Sat11);
  }

  /** The three labels differ in their first character. */
  lemma LabelsDiffer()
    ensures Thu9 != Fri10 && Thu9 != Sat11 && Fri10 != Sat11
  {
    assert Fri10[0] != Thu9[0] && Sat11[0] != Thu9[0] && Sat11[0] != Fri10[0];
  }

  /** The three labels are distinct. */
  lemma ThreeLabelsDistinct()
    ensures Distinct([Thu9, Fri10, Sat11]) == [Thu9, Fri10, Sat11]
  {
    LabelsDiffer();
    DistinctOfThree(Thu9, Fri10, Sat11);
  }

  /** The day numbers of the three labels. */
  lemma ExampleDays()
    ensures ExampleDay(Thu9) == 9 && ExampleDay(Fri10) == 10 && ExampleDay(Sat11) == 11
  {
    LabelsDiffer();
  }

  /** The sorted, duplicate-free labels of the three problems. */
  lemma ThreeDaysSortedLabels()
    ensures UniqueSortedLabels(ThreeDays, ExampleLabel) == [Fri10, Sat11, Thu9]
  {
    ThreeDaysLabels();
    ThreeLabelsDistinct();
    WeekdayLabelsSortOutOfOrder();
  }

  /** Three sorted labels give the loop their three day numbers, in that order. */
  lemma DaysOfThreeLabels(ps: seq<Problem>, dateLabel: string -> string, dayNumber: string -> int,
                          a: string, b: string, c: string)
    requires UniqueSortedLabels(ps, dateLabel) == [a, b, c]
    ensures StreakDays(ps, dateLabel, dayNumber) == [dayNumber(a), dayNumber(b), dayNumber(c)]
  {
    var days := StreakDays(ps, dateLabel, dayNumber);
    ThreeElements(days, dayNumber(a), dayNumber(b), dayNumber(c));
  }

  /** The streak loop walks the three days as 10, 11, 9. */
  lemma ThreeDaysStreakDays()
    ensures StreakDays(ThreeDays, ExampleLabel, ExampleDay) == [10, 11, 9]
  {
    ThreeDaysSortedLabels();
    DaysOfThreeLabels(ThreeDays, ExampleLabel, ExampleDay, Fri10, Sat11, Thu9);
    ExampleDays();
  }

  /** End to end: `getStats` on three problems solved on three consecutive
      days reports a streak of 2, where calendar order would give 3. */
  lemma WeekdayOrderInGetStats()
    ensures GetStats(ThreeDays, ExampleLabel, ExampleDay).streak == 2
    ensures Streak([9, 10, 11]) == 3
  {
    ThreeDaysStreakDays();
    WeekdayOrderShortensStreak();
  }
}
