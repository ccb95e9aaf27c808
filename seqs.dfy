/**
 * Sequence operations the board builds on: `Array.prototype.filter`,
 * the first-seen de-duplication of `Array.from(new Set(xs))`, and
 * the facts about order they preserve.
 */
module Seqs {
  import opened Wrappers

  /** `r` can be obtained from `s` by deleting elements, keeping the order of the rest. */
  predicate SubsequenceOf<T(==)>(r: seq<T>, s: seq<T>)
    decreases |s|
  {
    if |r| == 0 then true
    else if |s| == 0 then false
    else (r[0] == s[0] && SubsequenceOf(r[1..], s[1..])) || SubsequenceOf(r, s[1..])
  }

  predicate NoDuplicates<T(==)>(s: seq<T>) {
    forall i, j :: 0 <= i < j < |s| ==> s[i] != s[j]
  }

  /** `s.filter(p)`: the elements satisfying `p`, in their original order. */
  function Filter<T(==)>(s: seq<T>, p: T -> bool): (r: seq<T>)
    ensures |r| <= |s|
    ensures forall i :: 0 <= i < |r| ==> r[i] in s && p(r[i])
    ensures forall i :: 0 <= i < |s| && p(s[i]) ==> s[i] in r
  {
    if |s| == 0 then []
    else
      var rest := Filter(s[1..], p);
      assert forall i :: 0 < i < |s| ==> s[i] == s[1..][i - 1];
      if p(s[0]) then [s[0]] + rest else rest
  }

  /** Filtering only deletes elements: what is kept stays in its original order. */
  lemma {:induction false} FilterIsSubsequence<T>(s: seq<T>, p: T -> bool)
    ensures SubsequenceOf(Filter(s, p), s)
  {
    if |s| > 0 {
      FilterIsSubsequence(s[1..], p);
      var rest := Filter(s[1..], p);
      if p(s[0]) {
        assert Filter(s, p) == [s[0]] + rest;
        assert ([s[0]] + rest)[1..] == rest;
      } else {
        SubsequenceSkip(rest, s);
      }
    }
  }

  lemma SubsequenceSkip<T>(r: seq<T>, s: seq<T>)
    requires |s| > 0 && SubsequenceOf(r, s[1..])
    ensures SubsequenceOf(r, s)
  {
  }

  /** Every sequence is a subsequence of itself. */
  lemma {:induction false} SubsequenceReflexive<T>(s: seq<T>)
    ensures SubsequenceOf(s, s)
  {
    if |s| > 0 {
      SubsequenceReflexive(s[1..]);
    }
  }

  /** Appending to the larger sequence keeps a subsequence a subsequence. */
  lemma {:induction false} SubsequenceExtend<T>(r: seq<T>, s: seq<T>, x: T)
    requires SubsequenceOf(r, s)
    ensures SubsequenceOf(r, s + [x])
    decreases |s|
  {
    if |r| > 0 {
      assert (s + [x])[1..] == s[1..] + [x];
      if r[0] == s[0] && SubsequenceOf(r[1..], s[1..]) {
        SubsequenceExtend(r[1..], s[1..], x);
      } else {
        SubsequenceExtend(r, s[1..], x);
      }
    }
  }

  /** Every element of a subsequence occurs in the sequence. */
  lemma {:induction false} SubsequenceElements<T>(r: seq<T>, s: seq<T>)
    requires SubsequenceOf(r, s)
    ensures forall i :: 0 <= i < |r| ==> exists m :: 0 <= m < |s| && s[m] == r[i]
    decreases |s|
  {
    if |r| > 0 && |s| > 0 {
      if r[0] == s[0] && SubsequenceOf(r[1..], s[1..]) {
        SubsequenceElements(r[1..], s[1..]);
        forall i | 0 <= i < |r| ensures exists m :: 0 <= m < |s| && s[m] == r[i] {
          if i == 0 {
            assert s[0] == r[0];
          } else {
            assert r[i] == r[1..][i - 1];
            var m :| 0 <= m < |s[1..]| && s[1..][m] == r[1..][i - 1];
            assert s[m + 1] == r[i];
          }
        }
      } else {
        SubsequenceElements(r, s[1..]);
        forall i | 0 <= i < |r| ensures exists m :: 0 <= m < |s| && s[m] == r[i] {
          var m :| 0 <= m < |s[1..]| && s[1..][m] == r[i];
          assert s[m + 1] == r[i];
        }
      }
    }
  }

  /** Deleting elements cannot create a repeat. */
  lemma {:induction false} SubsequenceNoDuplicates<T>(r: seq<T>, s: seq<T>)
    requires SubsequenceOf(r, s) && NoDuplicates(s)
    ensures NoDuplicates(r)
    decreases |s|
  {
    if |r| > 0 && |s| > 0 {
      assert NoDuplicates(s[1..]) by {
        forall i, j | 0 <= i < j < |s[1..]| ensures s[1..][i] != s[1..][j] {
          assert s[1..][i] == s[i + 1] && s[1..][j] == s[j + 1];
        }
      }
      if r[0] == s[0] && SubsequenceOf(r[1..], s[1..]) {
        SubsequenceNoDuplicates(r[1..], s[1..]);
        SubsequenceElements(r[1..], s[1..]);
        forall i, j | 0 <= i < j < |r| ensures r[i] != r[j] {
          assert r[j] == r[1..][j - 1];
          if i == 0 {
            var m :| 0 <= m < |s[1..]| && s[1..][m] == r[j];
            assert s[m + 1] == r[j];
          } else {
            assert r[i] == r[1..][i - 1];
          }
        }
      } else {
        SubsequenceNoDuplicates(r, s[1..]);
      }
    }
  }

  /** When every element passes, filtering changes nothing. */
  lemma {:induction false} FilterKeepsAll<T>(s: seq<T>, p: T -> bool)
    requires forall i :: 0 <= i < |s| ==> p(s[i])
    ensures Filter(s, p) == s
  {
    if |s| > 0 {
      assert forall i :: 0 <= i < |s[1..]| ==> p(s[1..][i]) by {
        forall i | 0 <= i < |s[1..]| ensures p(s[1..][i]) {
          assert s[1..][i] == s[i + 1];
        }
      }
      FilterKeepsAll(s[1..], p);
      assert s == [s[0]] + s[1..];
    }
  }

  /** Filtering by a predicate and by its negation splits the sequence between the two results. */
  lemma {:induction false} FilterSplits<T>(s: seq<T>, p: T -> bool)
    ensures |Filter(s, p)| + |Filter(s, x => !p(x))| == |s|
    ensures multiset(Filter(s, p)) + multiset(Filter(s, x => !p(x))) == multiset(s)
  {
    if |s| > 0 {
      FilterSplits(s[1..], p);
      assert s == [s[0]] + s[1..];
    }
  }

  /** Filtering distributes over appending one element. */
  lemma {:induction false} FilterAppend<T>(s: seq<T>, x: T, p: T -> bool)
    ensures Filter(s + [x], p) == Filter(s, p) + (if p(x) then [x] else [])
  {
    if |s| > 0 {
      FilterAppend(s[1..], x, p);
      assert (s + [x])[1..] == s[1..] + [x];
    }
  }

  /** Filtering out one element that occurs exactly once shortens the sequence by one. */
  lemma {:induction false} FilterDropsOne<T>(s: seq<T>, x: T, p: T -> bool)
    requires NoDuplicates(s) && x in s
    requires forall y :: p(y) <==> y != x
    ensures |Filter(s, p)| == |s| - 1
  {
    if s[0] == x {
      assert forall i :: 0 <= i < |s[1..]| ==> p(s[1..][i]) by {
        forall i | 0 <= i < |s[1..]| ensures p(s[1..][i]) {
          assert s[1..][i] == s[i + 1];
        }
      }
      FilterKeepsAll(s[1..], p);
    } else {
      assert x in s[1..] by { assert s == [s[0]] + s[1..]; }
      FilterDropsOne(s[1..], x, p);
    }
  }

  /** The position of the first occurrence of `x` in `s` (`s.indexOf(x)`). */
  function FirstIndex<T(==)>(s: seq<T>, x: T): (k: nat)
    requires x in s
    ensures k < |s| && s[k] == x && x !in s[..k]
  {
    if s[0] == x then 0
    else
      assert x in s[1..] by { assert s == [s[0]] + s[1..]; }
      var k := FirstIndex(s[1..], x);
      assert s[..k + 1] == [s[0]] + s[1..][..k];
      k + 1
  }

  /**
   * The distinct elements of `s` in the order of their first occurrence,
   * which is the order in which a JavaScript `Set` built from `s` keeps them.
   */
  function Dedup<T(==)>(s: seq<T>): (r: seq<T>)
    ensures NoDuplicates(r)
    ensures forall i :: 0 <= i < |r| ==> r[i] in s
    ensures forall i :: 0 <= i < |s| ==> s[i] in r
    ensures |r| <= |s|
  {
    if |s| == 0 then []
    else
      var init := s[..|s| - 1];
      var last := s[|s| - 1];
      assert s == init + [last];
      var d := Dedup(init);
      if last in init then d else d + [last]
  }

  lemma FirstIndexInPrefix<T>(s: seq<T>, n: nat, x: T)
    requires n <= |s| && x in s[..n]
    ensures FirstIndex(s, x) == FirstIndex(s[..n], x)
  {
    var k := FirstIndex(s[..n], x);
    assert s[..k] == s[..n][..k];
  }

  lemma DedupUnfold<T>(s: seq<T>)
    requires |s| > 0
    ensures Dedup(s) == if s[|s| - 1] in s[..|s| - 1] then Dedup(s[..|s| - 1]) else Dedup(s[..|s| - 1]) + [s[|s| - 1]]
  {
  }

  /**
   * De-duplication keeps first-seen order: an element that comes earlier in
   * `Dedup(s)` was first seen earlier in `s`.
   */
  lemma {:induction false} DedupFirstSeenOrder<T>(s: seq<T>, i: nat, j: nat)
    requires i < j < |Dedup(s)|
    ensures FirstIndex(s, Dedup(s)[i]) < FirstIndex(s, Dedup(s)[j])
  {
    var n := |s| - 1;
    var init := s[..n];
    var d := Dedup(init);
    DedupUnfold(s);
    assert Dedup(s)[i] == d[i] && d[i] in init;
    FirstIndexInPrefix(s, n, d[i]);
    if j < |d| {
      assert Dedup(s)[j] == d[j] && d[j] in init;
      DedupFirstSeenOrder(init, i, j);
      FirstIndexInPrefix(s, n, d[j]);
    } else {
      assert Dedup(s)[j] == s[n] && s[n] !in init;
      assert s[..n] == init;
      assert FirstIndex(s, s[n]) == n;
    }
  }

  /** A sequence without duplicates is its own de-duplication. */
  lemma {:induction false} DedupOfDistinct<T>(s: seq<T>)
    requires NoDuplicates(s)
    ensures Dedup(s) == s
  {
    if |s| > 0 {
      var n := |s| - 1;
      DedupUnfold(s);
      assert s[n] !in s[..n];
      DedupOfDistinct(s[..n]);
      assert s[..n] + [s[n]] == s;
    }
  }

  /**
   * Checks every element in order (an array schema over an element schema):
   * all results when every check succeeds, otherwise the first position that failed.
   */
  function CheckAll<A, B, E>(items: seq<A>, check: A -> Result<B, E>): (r: Result<seq<B>, nat>)
    ensures r.Ok? <==> forall i :: 0 <= i < |items| ==> check(items[i]).Ok?
    ensures r.Ok? ==> |r.value| == |items| && forall i :: 0 <= i < |items| ==> check(items[i]) == Ok(r.value[i])
    ensures r.Err? ==> r.error < |items| && check(items[r.error]).Err?
    ensures r.Err? ==> forall i :: 0 <= i < r.error ==> check(items[i]).Ok?
  {
    if |items| == 0 then Ok([])
    else
      match check(items[0])
      case Err(_) => Err(0)
      case Ok(b) =>
        var rest := CheckAll(items[1..], check);
        assert forall i :: 0 < i < |items| ==> items[i] == items[1..][i - 1];
        if rest.Err? then Err(rest.error + 1) else Ok([b] + rest.value)
  }
}
