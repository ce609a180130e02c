/** The per-item tests that src/components/ProblemList.tsx passes to
    `Array.prototype.filter`, as data, together with the filter itself. */
module Queries {
  import opened Types
  import opened Text
  import opened Collections

  /** A test on one problem. `FilterIs` is the status/difficulty drop-down,
      `SearchFor` the search box, `And` their conjunction. */
  datatype Query =
    | IsCompleted
    | HasDifficulty(difficulty: Difficulty)
    | HasDate
    | InWeek(week: int)
    | OnDay(day: int)
    | FilterIs(filter: string)
    | SearchFor(term: string)
    | And(left: Query, right: Query)

  /** The drop-down test: "all", "completed", "pending", or the lower-cased
      difficulty name; any other value matches nothing. */
  function MatchesFilter(p: Problem, filter: string): (r: bool)
    ensures r <==> (|| filter == "all"
                    || (filter == "completed" && p.completed)
                    || (filter == "pending" && !p.completed)
                    || (filter == "easy" && p.difficulty == Easy)
                    || (filter == "medium" && p.difficulty == Medium)
                    || (filter == "hard" && p.difficulty == Hard))
  {
    LowerDifficultyNames();
    || filter == "all"
    || (filter == "completed" && p.completed)
    || (filter == "pending" && !p.completed)
    || ToLower(DifficultyName(p.difficulty)) == filter
  }

  /** The lower-cased difficulty names are "easy", "medium" and "hard". */
  lemma LowerDifficultyNames()
    ensures ToLower(DifficultyName(Easy)) == "easy"
    ensures ToLower(DifficultyName(Medium)) == "medium"
    ensures ToLower(DifficultyName(Hard)) == "hard"
  {
  }

  /** The search test: the lower-cased term occurs in the lower-cased title,
      theme or technique. */
  function MatchesSearch(p: Problem, term: string): (r: bool)
    ensures r <==> (|| Occurs(ToLower(p.title), ToLower(term))
                    || Occurs(ToLower(p.theme), ToLower(term))
                    || Occurs(ToLower(p.technique), ToLower(term)))
  {
    var t := ToLower(term);
    IncludesFindsOccurrence(ToLower(p.title), t);
    IncludesFindsOccurrence(ToLower(p.theme), t);
    IncludesFindsOccurrence(ToLower(p.technique), t);
    || Includes(ToLower(p.title), t)
    || Includes(ToLower(p.theme), t)
    || Includes(ToLower(p.technique), t)
  }

  /** Whether problem `p` passes test `q`. `HasDate` is the truthiness of
      `completedDate`: present and not the empty string. */
  predicate Holds(q: Query, p: Problem) {
    match q
    case IsCompleted => p.completed
    case HasDifficulty(d) => p.difficulty == d
    case HasDate => p.completedDate.Some? && p.completedDate.value != ""
    case InWeek(w) => p.week == w
    case OnDay(d) => p.day == d
    case FilterIs(f) => MatchesFilter(p, f)
    case SearchFor(t) => MatchesSearch(p, t)
    case And(a, b) => Holds(a, p) && Holds(b, p)
  }

  /** A conjunction holds when both of its parts do. */
  lemma HoldsAnd(a: Query, b: Query, p: Problem)
    ensures Holds(And(a, b), p) == (Holds(a, p) && Holds(b, p))
  {
  }

  /** `ps.filter(q)`: the items passing `q`, in list order. */
  function Select(ps: seq<Problem>, q: Query): (r: seq<Problem>)
    ensures Subseq(r, ps)
    ensures forall i :: 0 <= i < |r| ==> Holds(q, r[i])
    ensures forall i :: 0 <= i < |ps| && Holds(q, ps[i]) ==> ps[i] in r
    ensures |r| <= |ps|
    decreases |ps|
  {
    if |ps| == 0 then []
    else
      var init := ps[..|ps| - 1];
      var p := ps[|ps| - 1];
      var rest := Select(init, q);
      assert forall i :: 0 <= i < |init| ==> ps[i] == init[i];
      if Holds(q, p) then
        var r := rest + [p];
        assert r[..|r| - 1] == rest;
        r
      else rest
  }

  /** The positions of the items passing `q`: an order-free description of
      which items a filter keeps. */
  ghost function Positions(ps: seq<Problem>, q: Query): set<int> {
    set i | 0 <= i < |ps| && Holds(q, ps[i])
  }

  /** Filtering a list extended by one item extends the result by that item
      exactly when it passes. */
  lemma SelectSnoc(ps: seq<Problem>, p: Problem, q: Query)
    ensures Select(ps + [p], q) == Select(ps, q) + (if Holds(q, p) then [p] else [])
  {
    assert (ps + [p])[..|ps|] == ps;
  }

  /** Extending the list by one item adds its position exactly when it passes. */
  lemma PositionsSnoc(ps: seq<Problem>, q: Query)
    requires |ps| > 0
    ensures |ps| - 1 !in Positions(ps[..|ps| - 1], q)
    ensures Positions(ps, q) == Positions(ps[..|ps| - 1], q)
                                + (if Holds(q, ps[|ps| - 1]) then {|ps| - 1} else {})
  {
    var n := |ps| - 1;
    var init := ps[..n];
    forall i ensures i in Positions(ps, q) <==> i in Positions(init, q) + (if Holds(q, ps[n]) then {n} else {}) {
      if 0 <= i < n {
        assert init[i] == ps[i];
      }
    }
  }

  /** `ps.filter(q).length` counts exactly the positions whose item passes `q`. */
  lemma {:induction false} SelectCountsPositions(ps: seq<Problem>, q: Query)
    ensures |Select(ps, q)| == |Positions(ps, q)|
    decreases |ps|
  {
    if |ps| > 0 {
      var n := |ps| - 1;
      SelectCountsPositions(ps[..n], q);
      PositionsSnoc(ps, q);
    }
  }

  /** A test that every item passes keeps the whole list. */
  lemma {:induction false} SelectKeepsAll(ps: seq<Problem>, q: Query)
    requires forall i {:trigger Holds(q, ps[i])} :: 0 <= i < |ps| ==> Holds(q, ps[i])
    ensures Select(ps, q) == ps
    decreases |ps|
  {
    if |ps| > 0 {
      var init := ps[..|ps| - 1];
      var p := ps[|ps| - 1];
      assert forall i :: 0 <= i < |init| ==> Holds(q, init[i]) by {
        forall i | 0 <= i < |init| ensures Holds(q, init[i]) {
          assert init[i] == ps[i];
        }
      }
      assert Holds(q, p);
      SelectKeepsAll(init, q);
      assert Select(ps, q) == Select(init, q) + [p];
      LastSplit(ps);
    }
  }

  /** Two tests that agree on every item of the list keep the same items. */
  lemma {:induction false} SelectSameTest(ps: seq<Problem>, a: Query, b: Query)
    requires forall i :: 0 <= i < |ps| ==> Holds(a, ps[i]) == Holds(b, ps[i])
    ensures Select(ps, a) == Select(ps, b)
    decreases |ps|
  {
    if |ps| > 0 {
      SelectSameTest(ps[..|ps| - 1], a, b);
    }
  }

  /** A test no item passes keeps nothing. */
  lemma {:induction false} SelectNone(ps: seq<Problem>, q: Query)
    requires forall i :: 0 <= i < |ps| ==> !Holds(q, ps[i])
    ensures Select(ps, q) == []
    decreases |ps|
  {
    if |ps| > 0 {
      SelectNone(ps[..|ps| - 1], q);
    }
  }

  /** Filtering twice is filtering once with the conjunction. */
  lemma {:induction false} SelectTwice(ps: seq<Problem>, a: Query, b: Query)
    ensures Select(Select(ps, a), b) == Select(ps, And(a, b))
    decreases |ps|
  {
    if |ps| > 0 {
      var init := ps[..|ps| - 1];
      var p := ps[|ps| - 1];
      LastSplit(ps);
      SelectTwice(init, a, b);
      SelectSnoc(init, p, a);
      SelectSnoc(init, p, And(a, b));
      var sa := Select(init, a);
      HoldsAnd(a, b, p);
      var tail := if Holds(And(a, b), p) then [p] else [];
      assert Select(ps, And(a, b)) == Select(init, And(a, b)) + tail;
      if Holds(a, p) {
        SelectSnoc(sa, p, b);
        assert Select(ps, a) == sa + [p];
        assert Select(Select(ps, a), b) == Select(sa + [p], b);
      } else {
        assert Select(ps, a) == sa;
        assert tail == [];
      }
    }
  }

  /** A stricter test keeps no more items than a looser one. */
  lemma {:induction false} SelectMonotone(ps: seq<Problem>, a: Query, b: Query)
    requires forall i :: 0 <= i < |ps| && Holds(a, ps[i]) ==> Holds(b, ps[i])
    ensures |Select(ps, a)| <= |Select(ps, b)|
    decreases |ps|
  {
    if |ps| > 0 {
      SelectMonotone(ps[..|ps| - 1], a, b);
    }
  }

  /** Every item has exactly one of the three difficulties, so the three
      per-difficulty counts add up to the list's length. */
  lemma {:induction false} DifficultiesPartition(ps: seq<Problem>)
    ensures |Select(ps, HasDifficulty(Easy))| + |Select(ps, HasDifficulty(Medium))|
          + |Select(ps, HasDifficulty(Hard))| == |ps|
    decreases |ps|
  {
    if |ps| > 0 {
      DifficultiesPartition(ps[..|ps| - 1]);
    }
  }
}
