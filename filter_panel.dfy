/**
 * The search and filter state behind the board's filter bar: the current
 * filters, the tags that can be picked, toggling one tag, clearing, and the
 * number of active criteria shown on the badge.
 */
module FilterPanel {
  import opened Text
  import opened Seqs
  import opened TaskModel
  import opened Filters

  /** The tags offered for picking: every tag of the given tasks, sorted, each once. */
  function AvailableTags(tasks: seq<Task>): (r: seq<string>)
    ensures StrictlySorted(r)
    ensures forall x :: x in r <==> exists t :: t in tasks && x in t.input.tags
  {
    ExtractTags(tasks)
  }

  /**
   * The tag list after toggling `tag`: the list goes through a set, so
   * repeats collapse to their first occurrence; then `tag` is deleted when
   * present and appended when absent. The other tags keep the order in
   * which they were first selected.
   */
  function Toggled(tags: seq<string>, tag: string): (r: seq<string>)
    ensures NoDuplicates(r)
    ensures tag in r <==> tag !in tags
    ensures tag !in tags ==> r[|r| - 1] == tag
    ensures forall x :: x != tag ==> (x in r <==> x in tags)
    ensures SubsequenceOf(r, Dedup(tags) + [tag])
  {
    var distinct := Dedup(tags);
    if tag in distinct then
      FilterIsSubsequence(distinct, x => x != tag);
      SubsequenceNoDuplicates(Filter(distinct, x => x != tag), distinct);
      SubsequenceExtend(Filter(distinct, x => x != tag), distinct, tag);
      Filter(distinct, x => x != tag)
    else
      SubsequenceReflexive(distinct + [tag]);
      distinct + [tag]
  }

  /** The badge count: a non-empty query, a priority other than `'all'`, and one per selected tag. */
  function ActiveCount(f: TaskFilters): (n: nat)
    ensures n == 0 <==> f.query == [] && f.priority.AnyPriority? && f.tags == []
  {
    (if f.query != [] then 1 else 0) + (if f.priority.Only? then 1 else 0) + |f.tags|
  }

  class FilterBar {
    var filters: TaskFilters

    /** Starts from a copy of the default filters. */
    constructor()
      ensures filters == DefaultFilters
    {
      filters := DefaultFilters;
    }

    /** Selects `tag` when it is not selected and deselects it otherwise; query and priority stay. */
    method ToggleTag(tag: string)
      modifies this
      ensures filters == old(filters).(tags := Toggled(old(filters).tags, tag))
      ensures NoDuplicates(old(filters).tags) ==>
        ActiveCount(filters) == if tag in old(filters).tags then ActiveCount(old(filters)) - 1 else ActiveCount(old(filters)) + 1
    {
      if NoDuplicates(filters.tags) {
        ToggleCount(filters, tag);
      }
      filters := filters.(tags := Toggled(filters.tags, tag));
    }

    /** Back to the defaults: nothing is filtered out any more. */
    method ClearFilters()
      modifies this
      ensures filters == DefaultFilters && ActiveCount(filters) == 0
    {
      filters := DefaultFilters;
    }
  }

  /** On a list without repeats, a toggle adds or removes exactly one criterion. */
  lemma ToggleCount(f: TaskFilters, tag: string)
    requires NoDuplicates(f.tags)
    ensures var g := f.(tags := Toggled(f.tags, tag));
      ActiveCount(g) == if tag in f.tags then ActiveCount(f) - 1 else ActiveCount(f) + 1
  {
    DedupOfDistinct(f.tags);
    assert |Toggled(f.tags, tag)| == if tag in f.tags then |f.tags| - 1 else |f.tags| + 1 by {
      if tag in f.tags {
        FilterDropsOne(f.tags, tag, x => x != tag);
      }
    }
  }

  /** Toggling an unselected tag twice gives back exactly the list it started from. */
  lemma ToggleTwiceRestores(tags: seq<string>, tag: string)
    requires NoDuplicates(tags) && tag !in tags
    ensures Toggled(Toggled(tags, tag), tag) == tags
  {
    DedupOfDistinct(tags);
    var once := tags + [tag];
    assert Toggled(tags, tag) == once;
    DedupOfDistinct(once);
    FilterAppend(tags, tag, x => x != tag);
    FilterKeepsAll(tags, x => x != tag);
  }

  /** Toggling a selected tag twice keeps the same tags selected, with that tag moved to the end. */
  lemma ToggleTwiceSameSelection(tags: seq<string>, tag: string)
    requires tag in tags
    ensures forall x :: x in Toggled(Toggled(tags, tag), tag) <==> x in tags
    ensures var r := Toggled(Toggled(tags, tag), tag); |r| > 0 && r[|r| - 1] == tag
  {
    var once := Toggled(tags, tag);
    assert tag !in Dedup(once);
  }

  /** With no active criterion, `applyTaskFilters` keeps every task. */
  lemma NoActiveCriteriaKeepsAll(tasks: seq<Task>, f: TaskFilters)
    requires ActiveCount(f) == 0
    ensures ApplyTaskFilters(tasks, f) == tasks
  {
    NoCriteriaKeepsAll(tasks, f);
  }

  /**
   * A non-empty query made only of whitespace counts as an active criterion
   * on the badge, yet filters nothing out, because the filter trims it first.
   */
  lemma BlankQueryCountedButInert(tasks: seq<Task>, query: string)
    requires |query| > 0 && forall i :: 0 <= i < |query| ==> IsSpace(query[i])
    ensures var f := DefaultFilters.(query := query);
      ActiveCount(f) == 1 && ApplyTaskFilters(tasks, f) == tasks
  {
    NoCriteriaKeepsAll(tasks, DefaultFilters.(query := query));
  }
}
