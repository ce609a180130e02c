/** The read-only projections src/components/ProblemList.tsx computes on
    every render: the filtered list, its grouping by day for the active week,
    the week options and the external link of a problem. */
module View {
  import opened Types
  import opened Collections
  import opened Text
  import opened Queries

  /** `filteredProblems`: the items passing both the drop-down and the search box. */
  function FilteredProblems(ps: seq<Problem>, filter: string, term: string): (r: seq<Problem>)
    ensures Subseq(r, ps)
    ensures forall i :: 0 <= i < |r| ==> MatchesFilter(r[i], filter) && MatchesSearch(r[i], term)
    ensures forall i :: 0 <= i < |ps| && MatchesFilter(ps[i], filter) && MatchesSearch(ps[i], term) ==>
      ps[i] in r
    ensures |r| == |Positions(ps, And(FilterIs(filter), SearchFor(term)))|
  {
    var q := And(FilterIs(filter), SearchFor(term));
    var r := Select(ps, q);
    SelectCountsPositions(ps, q);
    forall i | 0 <= i < |r|
      ensures MatchesFilter(r[i], filter) && MatchesSearch(r[i], term)
    {
      HoldsAnd(FilterIs(filter), SearchFor(term), r[i]);
    }
    forall i | 0 <= i < |ps| && MatchesFilter(ps[i], filter) && MatchesSearch(ps[i], term)
      ensures ps[i] in r
    {
      HoldsAnd(FilterIs(filter), SearchFor(term), ps[i]);
    }
    r
  }

  /** With "all" selected and an empty search box every problem is shown. */
  lemma AllWithEmptySearchShowsEverything(ps: seq<Problem>)
    ensures FilteredProblems(ps, "all", "") == ps
  {
    forall i | 0 <= i < |ps|
      ensures Holds(And(FilterIs("all"), SearchFor("")), ps[i])
    {
      assert ToLower("") == "";
      IncludesEmpty(ToLower(ps[i].title));
    }
    SelectKeepsAll(ps, And(FilterIs("all"), SearchFor("")));
  }

  /** `filteredProblems` is the filter by the conjunction of both tests. */
  lemma FilteredIsSelect(ps: seq<Problem>, filter: string, term: string)
    ensures FilteredProblems(ps, filter, term) == Select(ps, And(FilterIs(filter), SearchFor(term)))
  {
  }

  /** The search is case-insensitive: lower-casing the term changes nothing. */
  lemma SearchIgnoresCase(ps: seq<Problem>, filter: string, term: string)
    ensures FilteredProblems(ps, filter, ToLower(term)) == FilteredProblems(ps, filter, term)
  {
    var a := And(FilterIs(filter), SearchFor(ToLower(term)));
    var b := And(FilterIs(filter), SearchFor(term));
    forall i | 0 <= i < |ps|
      ensures Holds(a, ps[i]) == Holds(b, ps[i])
    {
      LowerTermSameTest(ps[i], filter, term);
    }
    SelectSameTest(ps, a, b);
    FilteredIsSelect(ps, filter, ToLower(term));
    FilteredIsSelect(ps, filter, term);
  }

  /** One item passes the lower-cased search exactly when it passes the original. */
  lemma LowerTermSameTest(p: Problem, filter: string, term: string)
    ensures Holds(And(FilterIs(filter), SearchFor(ToLower(term))), p)
         == Holds(And(FilterIs(filter), SearchFor(term)), p)
  {
    ToLowerIdempotent(term);
  }

  /** The problems of one day, in list order; rendered under the key `Day <day>`. */
  datatype DayGroup = DayGroup(day: int, items: seq<Problem>)

  /** The day of every group, in group order. */
  function Days(g: seq<DayGroup>): (r: seq<int>)
    ensures |r| == |g|
    ensures forall j :: 0 <= j < |g| ==> r[j] == g[j].day
  {
    seq(|g|, j requires 0 <= j < |g| => g[j].day)
  }

  /** The day of every problem, in list order. */
  function DayList(ps: seq<Problem>): (r: seq<int>)
    ensures |r| == |ps|
    ensures forall i :: 0 <= i < |ps| ==> r[i] == ps[i].day
  {
    seq(|ps|, i requires 0 <= i < |ps| => ps[i].day)
  }

  /** The position of the group of day `d`, or `|g|` when there is none:
      the lookup `acc[dayKey]`. */
  function FindDay(g: seq<DayGroup>, d: int): (k: nat)
    ensures k <= |g|
    ensures k < |g| ==> g[k].day == d
    ensures forall j :: 0 <= j < k ==> g[j].day != d
    decreases |g|
  {
    if |g| == 0 then 0
    else if g[0].day == d then 0
    else 1 + FindDay(g[1..], d)
  }

  /** One step of the `reduce`: pushes `p` onto the group of its day, opening
      a new group at the end when its day has none yet. */
  function AddToGroup(g: seq<DayGroup>, p: Problem): seq<DayGroup> {
    var k := FindDay(g, p.day);
    if k < |g| then g[k := g[k].(items := g[k].items + [p])]
    else g + [DayGroup(p.day, [p])]
  }

  /** `AddToGroup` keeps every other group, extends the group of `p.day`, and
      appends a new group only for an unseen day. */
  lemma AddToGroupEffect(g: seq<DayGroup>, p: Problem)
    requires NoDup(Days(g))
    ensures p.day in Days(g) ==> Days(AddToGroup(g, p)) == Days(g)
    ensures p.day !in Days(g) ==> Days(AddToGroup(g, p)) == Days(g) + [p.day]
    ensures forall j :: 0 <= j < |g| ==>
      AddToGroup(g, p)[j].items == g[j].items + (if g[j].day == p.day then [p] else [])
    ensures p.day !in Days(g) ==> AddToGroup(g, p)[|g|].items == [p]
  {
    var k := FindDay(g, p.day);
    var r := AddToGroup(g, p);
    if k < |g| {
      assert Days(r) == Days(g);
    } else {
      assert p.day !in Days(g);
      assert Days(r) == Days(g) + [p.day];
    }
  }

  /** Every group holds exactly the items of `ps` on its day, in list order. */
  ghost predicate ItemsByDay(g: seq<DayGroup>, ps: seq<Problem>) {
    forall j :: 0 <= j < |g| ==> g[j].items == Select(ps, OnDay(g[j].day))
  }

  /** The `reduce` that groups a list by day, run over the whole list: one
      group per day in order of first appearance, each holding exactly the
      items of its day in list order. */
  function GroupByDay(ps: seq<Problem>): (g: seq<DayGroup>)
    ensures Days(g) == Distinct(DayList(ps))
    ensures ItemsByDay(g, ps)
    decreases |ps|
  {
    if |ps| == 0 then []
    else
      var g := GroupByDay(ps[..|ps| - 1]);
      GroupStep(ps, g);
      AddToGroup(g, ps[|ps| - 1])
  }

  /** One `reduce` step keeps the grouping invariant. */
  lemma GroupStep(ps: seq<Problem>, g: seq<DayGroup>)
    requires |ps| > 0
    requires Days(g) == Distinct(DayList(ps[..|ps| - 1]))
    requires ItemsByDay(g, ps[..|ps| - 1])
    ensures Days(AddToGroup(g, ps[|ps| - 1])) == Distinct(DayList(ps))
    ensures ItemsByDay(AddToGroup(g, ps[|ps| - 1]), ps)
  {
    GroupStepDays(ps, g);
    forall i | 0 <= i < |ps| - 1
      ensures ps[i].day in Days(g)
    {
      assert DayList(ps[..|ps| - 1])[i] == ps[i].day;
    }
    GroupStepItems(ps, g);
  }

  /** The day order after one step is the first-appearance order of the longer list. */
  lemma GroupStepDays(ps: seq<Problem>, g: seq<DayGroup>)
    requires |ps| > 0
    requires Days(g) == Distinct(DayList(ps[..|ps| - 1]))
    ensures Days(AddToGroup(g, ps[|ps| - 1])) == Distinct(DayList(ps))
  {
    assert DayList(ps[..|ps| - 1]) == DayList(ps)[..|ps| - 1];
    AddToGroupEffect(g, ps[|ps| - 1]);
  }

  /** The groups after one step hold exactly the items of their day in the longer list. */
  lemma GroupStepItems(ps: seq<Problem>, g: seq<DayGroup>)
    requires |ps| > 0
    requires NoDup(Days(g))
    requires forall i :: 0 <= i < |ps| - 1 ==> ps[i].day in Days(g)
    requires ItemsByDay(g, ps[..|ps| - 1])
    ensures ItemsByDay(AddToGroup(g, ps[|ps| - 1]), ps)
  {
    var init := ps[..|ps| - 1];
    var p := ps[|ps| - 1];
    AddToGroupEffect(g, p);
    var r := AddToGroup(g, p);
    forall j | 0 <= j < |r|
      ensures r[j].items == Select(ps, OnDay(r[j].day))
    {
      var d := r[j].day;
      assert Select(ps, OnDay(d)) == Select(init, OnDay(d)) + (if p.day == d then [p] else []);
      if j < |g| {
        assert d == Days(r)[j] == Days(g)[j] == g[j].day;
      } else {
        assert d == p.day && p.day !in Days(g);
        SelectNone(init, OnDay(d));
      }
    }
  }

  /** A day some item has keeps at least that item. */
  lemma DayHasItems(ps: seq<Problem>, d: int)
    requires d in DayList(ps)
    ensures |Select(ps, OnDay(d))| > 0
  {
    var i :| 0 <= i < |ps| && DayList(ps)[i] == d;
    assert ps[i] in Select(ps, OnDay(d));
  }

  /** Every group of the day grouping is non-empty. */
  lemma GroupsNonEmpty(ps: seq<Problem>)
    ensures forall j :: 0 <= j < |GroupByDay(ps)| ==> |GroupByDay(ps)[j].items| > 0
  {
    var g := GroupByDay(ps);
    forall j | 0 <= j < |g|
      ensures |g[j].items| > 0
    {
      assert g[j].day in Distinct(DayList(ps)) by {
        assert Days(g)[j] == g[j].day;
      }
      DayHasItems(ps, g[j].day);
    }
  }

  /** `problemsByDay`: the filtered problems of the active week grouped by
      day. The groups come in order of first appearance, and the group of a
      day holds exactly the filtered items of the active week on that day,
      in list order. */
  function ProblemsByDay(filtered: seq<Problem>, activeWeek: int): (g: seq<DayGroup>)
    ensures Days(g) == Distinct(DayList(Select(filtered, InWeek(activeWeek))))
    ensures forall j :: 0 <= j < |g| ==>
      g[j].items == Select(filtered, And(InWeek(activeWeek), OnDay(g[j].day)))
    ensures forall j :: 0 <= j < |g| ==> |g[j].items| > 0
  {
    var g := GroupByDay(Select(filtered, InWeek(activeWeek)));
    GroupsNonEmpty(Select(filtered, InWeek(activeWeek)));
    forall j | 0 <= j < |g|
      ensures g[j].items == Select(filtered, And(InWeek(activeWeek), OnDay(g[j].day)))
    {
      SelectTwice(filtered, InWeek(activeWeek), OnDay(g[j].day));
    }
    g
  }

  /** The "No problems found" state appears exactly when no filtered problem
      belongs to the active week. */
  lemma NoResultsIffWeekEmpty(filtered: seq<Problem>, activeWeek: int)
    ensures |ProblemsByDay(filtered, activeWeek)| == 0 <==>
      forall i :: 0 <= i < |filtered| ==> filtered[i].week != activeWeek
  {
    var g := ProblemsByDay(filtered, activeWeek);
    var inWeek := Select(filtered, InWeek(activeWeek));
    if |g| > 0 {
      var p := g[0].items[0];
      HoldsAnd(InWeek(activeWeek), OnDay(g[0].day), p);
      SubseqMembers(g[0].items, filtered);
      assert p in filtered && p.week == activeWeek;
    }
    if i :| 0 <= i < |filtered| && filtered[i].week == activeWeek {
      assert filtered[i] in inWeek;
      var k :| 0 <= k < |inWeek| && inWeek[k] == filtered[i];
      assert DayList(inWeek)[k] in Days(g);
    }
  }

  /** The week of every problem, in list order. */
  function WeekList(ps: seq<Problem>): (r: seq<int>)
    ensures |r| == |ps|
    ensures forall i :: 0 <= i < |ps| ==> r[i] == ps[i].week
  {
    seq(|ps|, i requires 0 <= i < |ps| => ps[i].week)
  }

  /** `weeks`: every week of the whole list once, in order of first appearance.
      The options come from the whole list, so filtering never removes one. */
  function Weeks(ps: seq<Problem>): (r: seq<int>)
    ensures NoDup(r)
    ensures forall j :: 0 <= j < |r| ==> exists i :: 0 <= i < |ps| && ps[i].week == r[j]
    ensures forall i :: 0 <= i < |ps| ==> ps[i].week in r
    ensures forall j, k :: 0 <= j < k < |r| ==> FirstIndex(WeekList(ps), r[j]) < FirstIndex(WeekList(ps), r[k])
  {
    DistinctKeepsFirstAppearanceOrder(WeekList(ps));
    Distinct(WeekList(ps))
  }

  /** Filtering never removes a week option: the options depend on the whole list. */
  lemma WeeksCoverFilteredProblems(ps: seq<Problem>, filter: string, term: string)
    ensures forall p :: p in FilteredProblems(ps, filter, term) ==> p.week in Weeks(ps)
  {
    var f := FilteredProblems(ps, filter, term);
    forall p | p in f
      ensures p.week in Weeks(ps)
    {
      SubseqMembers(f, ps);
    }
  }

  /** The problem's LeetCode slug: its title lower-cased, each space turned into `-`. */
  function Slug(title: string): (r: string)
    ensures |r| == |title|
    ensures ' ' !in r
    ensures IsLower(r)
    ensures forall i :: 0 <= i < |title| && title[i] == ' ' ==> r[i] == '-'
    ensures forall i :: 0 <= i < |title| && IsUpper(title[i]) ==> r[i] as int == title[i] as int + 32
    ensures forall i :: 0 <= i < |title| && title[i] != ' ' && !IsUpper(title[i]) ==> r[i] == title[i]
  {
    var lower := ToLower(title);
    ToLowerCharwise(title);
    seq(|lower|, i requires 0 <= i < |lower| => if lower[i] == ' ' then '-' else lower[i])
  }

  /** A slug is its own slug. */
  lemma SlugIdempotent(title: string)
    ensures Slug(Slug(title)) == Slug(title)
  {
  }

  const LeetCodeBase := "https://leetcode.com/problems/"

  /** The "Solve on LeetCode" link: the base address, the slug, a closing `/`. */
  function ProblemUrl(p: Problem): (r: string)
    ensures |r| == |LeetCodeBase| + |p.title| + 1
    ensures r[..|LeetCodeBase|] == LeetCodeBase && r[|r| - 1] == '/'
    ensures forall i :: |LeetCodeBase| <= i < |r| ==> r[i] != ' '
    ensures r[|LeetCodeBase|..|r| - 1] == Slug(p.title)
  {
    LeetCodeBase + Slug(p.title) + "/"
  }
}
