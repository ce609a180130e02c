/** The progress store of src/components/ProblemList.tsx: the list of
    problems with their completion state, how it is seeded from the catalog,
    restored from and written back to the browser's storage, and how one
    problem's completion is toggled. */
module Progress {
  import opened Types

  /** Every item carries a completion date exactly when it is completed. */
  ghost predicate DatesConsistent(ps: seq<Problem>) {
    forall i :: 0 <= i < |ps| ==> (ps[i].completedDate.Some? <==> ps[i].completed)
  }

  /** The first-run list: every catalog entry, not completed and without a date. */
  function Seed(catalog: seq<Problem>): (r: seq<Problem>)
    ensures |r| == |catalog|
    ensures forall i :: 0 <= i < |r| ==> SameEntry(r[i], catalog[i])
    ensures forall i :: 0 <= i < |r| ==> !r[i].completed && r[i].completedDate.None?
    ensures DatesConsistent(r)
  {
    seq(|catalog|, i requires 0 <= i < |catalog| =>
      catalog[i].(completed := false, completedDate := None))
  }

  /** The list shown after mounting: the stored snapshot when the storage key
      holds one, otherwise the seeded catalog. `stored` is the already parsed
      snapshot; `None` stands for a missing or empty storage entry. */
  function Initialize(stored: Option<seq<Problem>>, catalog: seq<Problem>): (r: seq<Problem>)
    ensures stored.Some? ==> r == stored.value
    ensures stored.None? ==> |r| == |catalog| && DatesConsistent(r)
    ensures stored.None? ==> forall i :: 0 <= i < |r| ==> SameEntry(r[i], catalog[i]) && !r[i].completed
  {
    match stored
    case Some(snapshot) => snapshot
    case None => Seed(catalog)
  }

  /** The storage entry after the list changed: written with the whole list,
      except that an empty list never overwrites what was stored. */
  function PersistProgress(stored: Option<seq<Problem>>, ps: seq<Problem>): (r: Option<seq<Problem>>)
    ensures |ps| > 0 ==> r == Some(ps)
    ensures r == stored || r == Some(ps)
    ensures r != stored ==> r.Some? && |r.value| > 0
  {
    if |ps| > 0 then Some(ps) else stored
  }

  /** With nothing stored the tracker starts from the seeded catalog, which
      has nothing completed and keeps the date invariant. */
  lemma FirstRunIsSeed(catalog: seq<Problem>)
    ensures |Initialize(None, catalog)| == |catalog|
    ensures forall i :: 0 <= i < |catalog| ==>
      SameEntry(Initialize(None, catalog)[i], catalog[i]) && !Initialize(None, catalog)[i].completed
    ensures DatesConsistent(Initialize(None, catalog))
  {
  }

  /** Writing a non-empty list and mounting again gives back the same list. */
  lemma PersistThenReload(stored: Option<seq<Problem>>, ps: seq<Problem>, catalog: seq<Problem>)
    requires |ps| > 0
    ensures Initialize(PersistProgress(stored, ps), catalog) == ps
  {
  }

  /** The empty list a component starts with before the snapshot is loaded
      cannot destroy the stored snapshot. */
  lemma EmptyListKeepsSnapshot(stored: Option<seq<Problem>>, catalog: seq<Problem>)
    ensures PersistProgress(stored, []) == stored
    ensures Initialize(PersistProgress(stored, []), catalog) == Initialize(stored, catalog)
  {
  }

  /** One item after `toggleProblemCompletion(title)`: an item with that title
      flips `completed`, gets the timestamp `now` when it becomes completed
      and loses its date otherwise; any other item is returned as is. */
  function ToggleOne(p: Problem, title: string, now: string): Problem {
    if p.title == title then
      p.(completed := !p.completed,
         completedDate := if !p.completed then Some(now) else None)
    else p
  }

  /** `toggleProblemCompletion(title)` applied to the whole list, with `now`
      the current time `new Date().toISOString()` would give. */
  function Toggle(ps: seq<Problem>, title: string, now: string): (r: seq<Problem>)
    ensures |r| == |ps|
    ensures forall i :: 0 <= i < |ps| && ps[i].title != title ==> r[i] == ps[i]
    ensures forall i :: 0 <= i < |ps| && ps[i].title == title ==>
      && SameEntry(r[i], ps[i])
      && r[i].completed == !ps[i].completed
      && (r[i].completedDate.Some? <==> r[i].completed)
      && (r[i].completed ==> r[i].completedDate == Some(now))
  {
    seq(|ps|, i requires 0 <= i < |ps| => ToggleOne(ps[i], title, now))
  }

  /** Toggling a title no item carries leaves the list unchanged. */
  lemma ToggleUnknownTitle(ps: seq<Problem>, title: string, now: string)
    requires forall i :: 0 <= i < |ps| ==> ps[i].title != title
    ensures Toggle(ps, title, now) == ps
  {
  }

  /** Toggling keeps the invariant that a date is present exactly for the
      completed items. */
  lemma TogglePreservesDates(ps: seq<Problem>, title: string, now: string)
    requires DatesConsistent(ps)
    ensures DatesConsistent(Toggle(ps, title, now))
  {
  }

  /** Toggling the same title twice restores every completion flag. Items that
      started pending are restored entirely; items that started completed end
      completed again, dated by the second toggle. */
  lemma ToggleTwice(ps: seq<Problem>, title: string, now1: string, now2: string)
    requires DatesConsistent(ps)
    ensures |Toggle(Toggle(ps, title, now1), title, now2)| == |ps|
    ensures forall i :: 0 <= i < |ps| ==>
      Toggle(Toggle(ps, title, now1), title, now2)[i].completed == ps[i].completed
    ensures forall i :: 0 <= i < |ps| && !ps[i].completed ==>
      Toggle(Toggle(ps, title, now1), title, now2)[i] == ps[i]
    ensures forall i :: 0 <= i < |ps| && ps[i].completed && ps[i].title == title ==>
      Toggle(Toggle(ps, title, now1), title, now2)[i] == ps[i].(completedDate := Some(now2))
  {
  }
}
