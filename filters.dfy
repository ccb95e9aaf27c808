/**
 * The filter engine: tag normalisation, the sorted tag catalogue and the
 * task filter that ANDs priority, selected tags and a free-text query.
 * Everything here builds new sequences; nothing is updated in place.
 */
module Filters {
  import opened Text
  import opened Seqs
  import opened TaskModel

  /** The priority selector: `'all'` or one priority. */
  datatype PriorityFilter = AnyPriority | Only(priority: Priority)

  datatype TaskFilters = TaskFilters(query: string, priority: PriorityFilter, tags: seq<string>)

  /** No query, every priority, no selected tag. */
  const DefaultFilters := TaskFilters("", AnyPriority, [])

  /** The number of tags `NormalizeTags` keeps. */
  const TagLimit := 6

  /** One comma-separated piece, trimmed and lower-cased. */
  function CleanTag(piece: string): (r: string)
    ensures IsTrimmed(r) && IsLower(r)
  {
    LowerKeepsTrimmed(Trim(piece));
    Lower(Trim(piece))
  }

  function CleanTags(pieces: seq<string>): (r: seq<string>)
    ensures |r| == |pieces| && forall i :: 0 <= i < |r| ==> r[i] == CleanTag(pieces[i])
  {
    if |pieces| == 0 then [] else [CleanTag(pieces[0])] + CleanTags(pieces[1..])
  }

  /** The non-empty cleaned pieces of `raw`, in order, repeats included. */
  function TagTokens(raw: string): (r: seq<string>)
    ensures forall x :: x in r ==> |x| > 0 && IsTrimmed(x) && IsLower(x)
  {
    var cleaned := CleanTags(Split(raw, ','));
    CleanTagsAreClean(cleaned, Split(raw, ','));
    Filter(cleaned, (tag: string) => |tag| > 0)
  }

  lemma CleanTagsAreClean(cleaned: seq<string>, pieces: seq<string>)
    requires cleaned == CleanTags(pieces)
    ensures forall x :: x in cleaned ==> IsTrimmed(x) && IsLower(x)
  {
  }

  /** `Array.from(new Set(tokens)).slice(0, 6)`: the first six distinct tokens, in first-seen order. */
  function FirstDistinct(tokens: seq<string>): (r: seq<string>)
    ensures |r| == if |Dedup(tokens)| <= TagLimit then |Dedup(tokens)| else TagLimit
    ensures NoDuplicates(r)
    ensures forall i :: 0 <= i < |r| ==> r[i] in tokens
  {
    var unique := Dedup(tokens);
    var r := if |unique| <= TagLimit then unique else unique[..TagLimit];
    assert forall i :: 0 <= i < |r| ==> r[i] in tokens;
    r
  }

  /** The distinct tokens come out in the order in which each was first seen. */
  lemma FirstDistinctOrder(tokens: seq<string>, i: nat, j: nat)
    requires i < j < |FirstDistinct(tokens)|
    ensures FirstIndex(tokens, FirstDistinct(tokens)[i]) < FirstIndex(tokens, FirstDistinct(tokens)[j])
  {
    var unique := Dedup(tokens);
    var r := FirstDistinct(tokens);
    assert r == unique[..|r|];
    assert r[i] == unique[i] && r[j] == unique[j];
    DedupFirstSeenOrder(tokens, i, j);
  }

  /** Below the cap nothing is lost: every token is among the results. */
  lemma FirstDistinctComplete(tokens: seq<string>, x: string)
    requires x in tokens && |Dedup(tokens)| <= TagLimit
    ensures x in FirstDistinct(tokens)
  {
  }

  /**
   * The cap keeps the earliest tokens: a token first seen before a kept one
   * is kept too. With the length above, the result is the first six
   * distinct tokens.
   */
  lemma FirstDistinctKeepsEarliest(tokens: seq<string>, x: string, y: string)
    requires x in tokens && y in FirstDistinct(tokens)
    requires FirstIndex(tokens, x) < FirstIndex(tokens, y)
    ensures x in FirstDistinct(tokens)
  {
    var unique := Dedup(tokens);
    var r := FirstDistinct(tokens);
    assert r == unique[..|r|];
    var q :| 0 <= q < |r| && r[q] == y;
    var p :| 0 <= p < |unique| && unique[p] == x;
    if q < p {
      DedupFirstSeenOrder(tokens, q, p);
    }
    assert p < q;
    assert r[p] == x;
  }

  /**
   * `normalizeTags`: split on commas, trim, lower-case, drop empty pieces,
   * keep the first occurrence of each tag and at most six of them.
   */
  function NormalizeTags(raw: string): (r: seq<string>)
    ensures |r| == if |Dedup(TagTokens(raw))| <= TagLimit then |Dedup(TagTokens(raw))| else TagLimit
    ensures NoDuplicates(r)
    ensures forall i :: 0 <= i < |r| ==> |r[i]| > 0 && IsTrimmed(r[i]) && IsLower(r[i])
    ensures forall i :: 0 <= i < |r| ==> r[i] in TagTokens(raw)
  {
    FirstDistinct(TagTokens(raw))
  }

  /** The tags come out in the order in which each was first written. */
  lemma NormalizeTagsFirstSeenOrder(raw: string, i: nat, j: nat)
    requires i < j < |NormalizeTags(raw)|
    ensures FirstIndex(TagTokens(raw), NormalizeTags(raw)[i]) < FirstIndex(TagTokens(raw), NormalizeTags(raw)[j])
  {
    FirstDistinctOrder(TagTokens(raw), i, j);
  }

  /** Above the cap, the tags kept are the earliest ones: a tag first written before a kept tag is kept too. */
  lemma NormalizeTagsKeepsEarliest(raw: string, x: string, y: string)
    requires x in TagTokens(raw) && y in NormalizeTags(raw)
    requires FirstIndex(TagTokens(raw), x) < FirstIndex(TagTokens(raw), y)
    ensures x in NormalizeTags(raw)
  {
    FirstDistinctKeepsEarliest(TagTokens(raw), x, y);
  }

  /** Below the cap nothing is lost: every non-empty cleaned piece is among the tags. */
  lemma NormalizeTagsKeepsEveryTag(raw: string, k: nat)
    requires k < |Split(raw, ',')| && |CleanTag(Split(raw, ',')[k])| > 0
    requires |Dedup(TagTokens(raw))| <= TagLimit
    ensures CleanTag(Split(raw, ',')[k]) in NormalizeTags(raw)
  {
    var pieces := Split(raw, ',');
    var cleaned := CleanTags(pieces);
    assert cleaned[k] == CleanTag(pieces[k]);
    assert cleaned[k] in TagTokens(raw);
    FirstDistinctComplete(TagTokens(raw), cleaned[k]);
  }

  /** Normalised tags always satisfy the task schema's tag constraints. */
  lemma NormalizedTagsAccepted(raw: string)
    ensures TagsAccepted(NormalizeTags(raw))
  {
    var r := NormalizeTags(raw);
    forall i | 0 <= i < |r| ensures |Trim(r[i])| >= 1 {
      TrimOfTrimmed(r[i]);
    }
  }

  /** Strictly increasing: sorted and free of repeats. */
  predicate StrictlySorted(s: seq<string>) {
    forall i, j :: 0 <= i < j < |s| ==> Below(s[i], s[j])
  }

  /** Every tag of every task, in task order then tag order (the order of the `forEach` loops). */
  function AllTags(tasks: seq<Task>): (r: seq<string>)
    ensures forall x :: x in r <==> exists t :: t in tasks && x in t.input.tags
  {
    if |tasks| == 0 then []
    else
      var rest := AllTags(tasks[1..]);
      assert forall t :: t in tasks <==> t == tasks[0] || t in tasks[1..];
      tasks[0].input.tags + rest
  }

  /** Adds `x` to a strictly sorted list unless it is already there (a `Set.add` kept in order). */
  function InsertSorted(x: string, s: seq<string>): (r: seq<string>)
    requires StrictlySorted(s)
    ensures StrictlySorted(r)
    ensures forall y :: y in r <==> y == x || y in s
  {
    if |s| == 0 then [x]
    else if x == s[0] then s
    else if Below(x, s[0]) then
      assert forall j :: 0 <= j < |s| ==> Below(x, s[j]) by {
        forall j | 0 < j < |s| ensures Below(x, s[j]) {
          BelowTransitive(x, s[0], s[j]);
        }
      }
      [x] + s
    else
      BelowTotal(x, s[0]);
      var rest := InsertSorted(x, s[1..]);
      assert forall y :: y in s <==> y == s[0] || y in s[1..];
      assert forall j :: 0 <= j < |rest| ==> Below(s[0], rest[j]) by {
        forall j | 0 <= j < |rest| ensures Below(s[0], rest[j]) {
          assert rest[j] in rest;
          if rest[j] != x {
            var k :| 0 <= k < |s[1..]| && s[1..][k] == rest[j];
            assert s[k + 1] == rest[j];
          }
        }
      }
      [s[0]] + rest
  }

  /** Inserts each element of `xs` in turn. */
  function InsertAll(xs: seq<string>, acc: seq<string>): (r: seq<string>)
    requires StrictlySorted(acc)
    ensures StrictlySorted(r)
    ensures forall y :: y in r <==> y in xs || y in acc
  {
    if |xs| == 0 then acc
    else
      assert forall y :: y in xs <==> y == xs[0] || y in xs[1..];
      InsertAll(xs[1..], InsertSorted(xs[0], acc))
  }

  /** `extractTags`: the distinct tags of all tasks, in increasing order. */
  function ExtractTags(tasks: seq<Task>): (r: seq<string>)
    ensures StrictlySorted(r)
    ensures forall x :: x in r <==> exists t :: t in tasks && x in t.input.tags
  {
    InsertAll(AllTags(tasks), [])
  }

  /**
   * A strictly sorted list is determined by its elements, so `ExtractTags`
   * is the one increasing list of the tags in use, whatever order the tasks
   * and their tags come in.
   */
  lemma {:induction false} SortedListUnique(a: seq<string>, b: seq<string>)
    requires StrictlySorted(a) && StrictlySorted(b)
    requires forall x :: x in a <==> x in b
    ensures a == b
  {
    if |a| > 0 {
      assert a[0] in b;
    }
    if |b| > 0 {
      assert b[0] in a;
    }
    if |a| > 0 && |b| > 0 {
      if a[0] != b[0] {
        assert a[0] in a && b[0] in b;
        var j :| 0 <= j < |b| && b[j] == a[0];
        var i :| 0 <= i < |a| && a[i] == b[0];
        BelowTransitive(a[0], a[i], b[j]);
        BelowIrreflexive(a[0]);
      }
      forall x ensures x in a[1..] <==> x in b[1..] {
        if x in a[1..] {
          var i :| 0 <= i < |a[1..]| && a[1..][i] == x;
          assert a[i + 1] == x;
          assert x != a[0] by { BelowIrreflexive(a[0]); }
          assert x in b;
          assert x in b[1..] by { assert b == [b[0]] + b[1..]; }
        }
        if x in b[1..] {
          var j :| 0 <= j < |b[1..]| && b[1..][j] == x;
          assert b[j + 1] == x;
          assert x != b[0] by { BelowIrreflexive(b[0]); }
          assert x in a;
          assert x in a[1..] by { assert a == [a[0]] + a[1..]; }
        }
      }
      SortedListUnique(a[1..], b[1..]);
      assert a == [a[0]] + a[1..] && b == [b[0]] + b[1..];
    }
  }

  /** The tags are the same however the task list is ordered. */
  lemma ExtractTagsOrderIndependent(tasks: seq<Task>, other: seq<Task>)
    requires forall t :: t in tasks <==> t in other
    ensures ExtractTags(tasks) == ExtractTags(other)
  {
    SortedListUnique(ExtractTags(tasks), ExtractTags(other));
  }

  /** Tags `design, api` and `api, ops` give the catalogue `api, design, ops`. */
  lemma ExtractTagsExample(a: Task, b: Task)
    requires a.input.tags == ["design", "api"] && b.input.tags == ["api", "ops"]
    ensures ExtractTags([a, b]) == ["api", "design", "ops"]
  {
    var expected := ["api", "design", "ops"];
    assert StrictlySorted(expected) by {
      assert Below("api", "design") && Below("design", "ops") && Below("api", "ops");
    }
    forall x ensures x in ExtractTags([a, b]) <==> x in expected {
      if x in expected {
        if x == "api" || x == "design" {
          assert x in a.input.tags;
        } else {
          assert x in b.input.tags;
        }
      }
    }
    SortedListUnique(ExtractTags([a, b]), expected);
  }

  /** The query as it is compared: trimmed and lower-cased. */
  function NormalizedQuery(f: TaskFilters): string {
    Lower(Trim(f.query))
  }

  function LowerAll(tags: seq<string>): (r: seq<string>)
    ensures |r| == |tags| && forall i :: 0 <= i < |r| ==> r[i] == Lower(tags[i])
  {
    if |tags| == 0 then [] else [Lower(tags[0])] + LowerAll(tags[1..])
  }

  /**
   * The text a query is searched in: title, description and tags,
   * space-separated and lower-cased. Each of them, lower-cased, occurs in it.
   */
  function Haystack(t: Task): (r: string)
    ensures IsLower(r)
    ensures OccursAt(r, Lower(t.input.title), 0)
    ensures t.input.description.Some? ==> OccursAt(r, Lower(t.input.description.value), |t.input.title| + 1)
    ensures forall k :: 0 <= k < |t.input.tags| ==> Contains(r, Lower(t.input.tags[k]))
  {
    var description := if t.input.description.Some? then t.input.description.value else "";
    HaystackHasTitle(t.input.title, description, Join(t.input.tags, " "));
    HaystackHasDescription(t.input.title, description, Join(t.input.tags, " "));
    HaystackHasTags(t.input.title + " " + description + " ", t.input.tags);
    Lower(t.input.title + " " + description + " " + Join(t.input.tags, " "))
  }

  /** The title comes first in the haystack. */
  lemma HaystackHasTitle(title: string, description: string, joined: string)
    ensures OccursAt(Lower(title + " " + description + " " + joined), Lower(title), 0)
  {
    assert OccursAt(title, title, 0);
    OccursInPrefix(title, " ", title, 0);
    OccursInPrefix(title + " ", description, title, 0);
    OccursInPrefix(title + " " + description, " ", title, 0);
    OccursInPrefix(title + " " + description + " ", joined, title, 0);
    LowerOccurs(title + " " + description + " " + joined, title, 0);
  }

  /** The description comes right after the title and a space. */
  lemma HaystackHasDescription(title: string, description: string, joined: string)
    ensures OccursAt(Lower(title + " " + description + " " + joined), Lower(description), |title| + 1)
  {
    assert OccursAt(description, description, 0);
    OccursInSuffix(title + " ", description, description, 0);
    OccursInPrefix(title + " " + description, " ", description, |title| + 1);
    OccursInPrefix(title + " " + description + " ", joined, description, |title| + 1);
    LowerOccurs(title + " " + description + " " + joined, description, |title| + 1);
  }

  /** Every tag occurs in the joined tags at the end of the haystack. */
  lemma HaystackHasTags(front: string, tags: seq<string>)
    ensures forall k :: 0 <= k < |tags| ==> Contains(Lower(front + Join(tags, " ")), Lower(tags[k]))
  {
    var joined := Join(tags, " ");
    forall k | 0 <= k < |tags|
      ensures Contains(Lower(front + joined), Lower(tags[k]))
    {
      JoinHasPart(tags, " ", k);
      var i :| OccursAt(joined, tags[k], i);
      OccursInSuffix(front, joined, tags[k], i);
      LowerOccurs(front + joined, tags[k], |front| + i);
      ContainsIff(Lower(front + joined), Lower(tags[k]));
    }
  }

  predicate PriorityPasses(f: TaskFilters, t: Task) {
    f.priority.AnyPriority? || t.input.priority == f.priority.priority
  }

  predicate TagsPass(f: TaskFilters, t: Task) {
    var taskTags := LowerAll(t.input.tags);
    forall k :: 0 <= k < |f.tags| ==> Lower(f.tags[k]) in taskTags
  }

  predicate QueryPasses(f: TaskFilters, t: Task) {
    NormalizedQuery(f) == [] || Contains(Haystack(t), NormalizedQuery(f))
  }

  /**
   * The callback of `applyTaskFilters`: the priority is the selected one (or
   * any), every selected tag is among the task's tags ignoring case, and the
   * normalised query, unless blank, occurs somewhere in the haystack.
   */
  function Matches(f: TaskFilters, t: Task): (r: bool)
    ensures r <==>
      (f.priority.AnyPriority? || t.input.priority == f.priority.priority) &&
      (forall k :: 0 <= k < |f.tags| ==> Lower(f.tags[k]) in LowerAll(t.input.tags)) &&
      (NormalizedQuery(f) == [] || exists i :: OccursAt(Haystack(t), NormalizedQuery(f), i))
  {
    ContainsIff(Haystack(t), NormalizedQuery(f));
    PriorityPasses(f, t) && TagsPass(f, t) && QueryPasses(f, t)
  }

  /**
   * `applyTaskFilters`: the tasks that pass all three checks, in their
   * original order; a task is dropped only when one of the checks fails.
   */
  function ApplyTaskFilters(tasks: seq<Task>, f: TaskFilters): (r: seq<Task>)
    ensures forall t :: t in r ==> t in tasks
    ensures forall t :: t in r && f.priority.Only? ==> t.input.priority == f.priority.priority
    ensures forall t, k :: t in r && 0 <= k < |f.tags| ==> Lower(f.tags[k]) in LowerAll(t.input.tags)
    ensures forall t :: t in r && NormalizedQuery(f) != [] ==> Contains(Haystack(t), NormalizedQuery(f))
    ensures forall t :: t in tasks && PriorityPasses(f, t) && TagsPass(f, t) && QueryPasses(f, t) ==> t in r
  {
    Filter(tasks, t => Matches(f, t))
  }

  /**
   * With priority `'all'`, no selected tag and a query that is empty or only
   * whitespace, every task is kept, in order.
   */
  lemma NoCriteriaKeepsAll(tasks: seq<Task>, f: TaskFilters)
    requires f.priority.AnyPriority? && f.tags == []
    requires forall i :: 0 <= i < |f.query| ==> IsSpace(f.query[i])
    ensures ApplyTaskFilters(tasks, f) == tasks
  {
    TrimEmptyIff(f.query);
    assert forall i :: 0 <= i < |tasks| ==> Matches(f, tasks[i]);
    FilterKeepsAll(tasks, t => Matches(f, t));
  }

  /** The filtered list keeps the tasks' original order. */
  lemma ApplyTaskFiltersKeepsOrder(tasks: seq<Task>, f: TaskFilters)
    ensures SubsequenceOf(ApplyTaskFilters(tasks, f), tasks)
  {
    FilterIsSubsequence(tasks, t => Matches(f, t));
  }

  lemma DefaultFiltersKeepAll(tasks: seq<Task>)
    ensures ApplyTaskFilters(tasks, DefaultFilters) == tasks
  {
    NoCriteriaKeepsAll(tasks, DefaultFilters);
  }

  /** The query check is a substring search: it passes exactly when the query occurs somewhere in the haystack. */
  lemma QueryPassesIff(f: TaskFilters, t: Task)
    requires NormalizedQuery(f) != []
    ensures QueryPasses(f, t) <==> exists i :: OccursAt(Haystack(t), NormalizedQuery(f), i)
  {
    ContainsIff(Haystack(t), NormalizedQuery(f));
  }
}
