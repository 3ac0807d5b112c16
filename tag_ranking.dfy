/**
 * The tag ranking of the list layout: the keys of the tag-count table,
 * in their enumeration order, sorted by the comparator
 * `(a, b) => tagCounts[b] - tagCounts[a]`. The array sort of the language
 * is stable, so tags with equal counts keep their enumeration order; the
 * sort is modelled as a stable insertion sort.
 */
module TagRanking {

  /** Every element of `s` has a count. */
  ghost predicate AllCounted(s: seq<string>, counts: map<string, int>) {
    forall i :: 0 <= i < |s| ==> s[i] in counts
  }

  /** No element of `s` appears twice. */
  ghost predicate Distinct(s: seq<string>) {
    forall i, j :: 0 <= i < j < |s| ==> s[i] != s[j]
  }

  /**
   * `keys` is an enumeration of the table's keys, as `Object.keys` gives:
   * each key exactly once, nothing else.
   */
  ghost predicate IsKeyOrder(keys: seq<string>, counts: map<string, int>) {
    (forall k :: k in keys <==> k in counts) && Distinct(keys)
  }

  /** Counts never increase along `s`. */
  ghost predicate DescendingByCount(s: seq<string>, counts: map<string, int>)
    requires AllCounted(s, counts)
  {
    forall i, j :: 0 <= i < j < |s| ==> counts[s[i]] >= counts[s[j]]
  }

  /** The elements of `s` whose count is `c`, in their order in `s`. */
  function WithCount(s: seq<string>, counts: map<string, int>, c: int): seq<string>
    requires AllCounted(s, counts)
  {
    if |s| == 0 then []
    else (if counts[s[0]] == c then [s[0]] else []) + WithCount(s[1..], counts, c)
  }

  /**
   * Inserts `x` into a count-descending sequence in front of the first
   * element whose count is not larger, so that `x` precedes the elements
   * whose count equals its own.
   */
  function Insert(x: string, sorted: seq<string>, counts: map<string, int>): (r: seq<string>)
    requires x in counts && AllCounted(sorted, counts)
    ensures multiset(r) == multiset(sorted) + multiset{x}
    ensures AllCounted(r, counts)
    decreases |sorted|
  {
    if |sorted| == 0 || counts[sorted[0]] <= counts[x] then [x] + sorted
    else
      var rest := Insert(x, sorted[1..], counts);
      assert sorted == [sorted[0]] + sorted[1..];
      assert forall y :: y in rest ==> y in sorted[1..] || y == x by {
        forall y | y in rest ensures y in sorted[1..] || y == x {
          assert y in multiset(rest);
        }
      }
      [sorted[0]] + rest
  }

  /** Stable insertion sort by descending count. */
  function SortByCount(s: seq<string>, counts: map<string, int>): (r: seq<string>)
    requires AllCounted(s, counts)
    ensures multiset(r) == multiset(s)
    ensures AllCounted(r, counts)
    ensures DescendingByCount(r, counts)
    decreases |s|
  {
    if |s| == 0 then []
    else
      assert s == [s[0]] + s[1..];
      InsertKeepsDescending(s[0], SortByCount(s[1..], counts), counts);
      Insert(s[0], SortByCount(s[1..], counts), counts)
  }

  /** Inserting into a count-descending sequence keeps it count-descending. */
  lemma {:induction false} InsertKeepsDescending(x: string, sorted: seq<string>, counts: map<string, int>)
    requires x in counts && AllCounted(sorted, counts)
    requires DescendingByCount(sorted, counts)
    ensures DescendingByCount(Insert(x, sorted, counts), counts)
    decreases |sorted|
  {
    if |sorted| > 0 && counts[sorted[0]] > counts[x] {
      var head, tail := sorted[0], sorted[1..];
      var rest := Insert(x, tail, counts);
      InsertKeepsDescending(x, tail, counts);
      var r := Insert(x, sorted, counts);
      assert r == [head] + rest;
      forall y | y in rest
        ensures counts[head] >= counts[y]
      {
        assert y in multiset(rest);
        if y != x {
          assert y in multiset(tail);
          var j :| 0 <= j < |tail| && tail[j] == y;
          assert sorted[j + 1] == y;
        }
      }
      forall i, j | 0 <= i < j < |r|
        ensures counts[r[i]] >= counts[r[j]]
      {
        if i == 0 {
          assert r[j] == rest[j - 1];
          assert rest[j - 1] in rest;
        } else {
          assert r[i] == rest[i - 1] && r[j] == rest[j - 1];
        }
      }
    }
  }

  /** `Object.keys(tagCounts).sort((a, b) => tagCounts[b] - tagCounts[a])`. */
  function SortedTags(keys: seq<string>, counts: map<string, int>): (r: seq<string>)
    requires IsKeyOrder(keys, counts)
    ensures IsKeyOrder(r, counts)
    ensures |r| == |keys|
    ensures AllCounted(r, counts) && DescendingByCount(r, counts)
  {
    var r := SortByCount(keys, counts);
    assert forall k :: k in r <==> k in multiset(keys);
    DistinctIsSingleCopies(keys);
    SingleCopiesIsDistinct(r);
    assert |r| == |multiset(r)| == |multiset(keys)| == |keys|;
    r
  }

  lemma {:induction false} DistinctIsSingleCopies(s: seq<string>)
    requires Distinct(s)
    ensures forall x :: multiset(s)[x] <= 1
    decreases |s|
  {
    if |s| > 0 {
      assert s == [s[0]] + s[1..];
      DistinctIsSingleCopies(s[1..]);
      assert s[0] !in s[1..];
    }
  }

  lemma {:induction false} SingleCopiesIsDistinct(s: seq<string>)
    requires forall x :: multiset(s)[x] <= 1
    ensures Distinct(s)
    decreases |s|
  {
    if |s| > 0 {
      assert s == [s[0]] + s[1..];
      assert forall x :: multiset(s[1..])[x] <= multiset(s)[x];
      SingleCopiesIsDistinct(s[1..]);
      assert multiset(s)[s[0]] == multiset(s[1..])[s[0]] + 1;
      assert s[0] !in s[1..];
      forall i, j | 0 <= i < j < |s|
        ensures s[i] != s[j]
      {
        if i == 0 {
          assert s[j] == s[1..][j - 1];
        } else {
          assert s[i] == s[1..][i - 1] && s[j] == s[1..][j - 1];
        }
      }
    }
  }

  /** Inserting `x` puts it ahead of every element whose count equals its own. */
  lemma {:induction false} InsertKeepsEqualCountOrder(x: string, sorted: seq<string>, counts: map<string, int>, c: int)
    requires x in counts && AllCounted(sorted, counts)
    requires DescendingByCount(sorted, counts)
    ensures WithCount(Insert(x, sorted, counts), counts, c)
         == (if counts[x] == c then [x] else []) + WithCount(sorted, counts, c)
    decreases |sorted|
  {
    var r := Insert(x, sorted, counts);
    var mine := if counts[x] == c then [x] else [];
    if |sorted| == 0 || counts[sorted[0]] <= counts[x] {
      assert r == [x] + sorted;
      assert r[1..] == sorted;
    } else {
      var head, tail := sorted[0], sorted[1..];
      var rest := Insert(x, tail, counts);
      var theirs := if counts[head] == c then [head] else [];
      assert r == [head] + rest;
      assert r[1..] == rest;
      assert sorted[1..] == tail;
      assert WithCount(r, counts, c) == theirs + WithCount(rest, counts, c);
      assert WithCount(sorted, counts, c) == theirs + WithCount(tail, counts, c);
      InsertKeepsEqualCountOrder(x, tail, counts, c);
      assert mine == [] || theirs == [];
    }
  }

  /** Tags with equal counts keep their enumeration order (the sort is stable). */
  lemma {:induction false} SortByCountIsStable(s: seq<string>, counts: map<string, int>, c: int)
    requires AllCounted(s, counts)
    ensures WithCount(SortByCount(s, counts), counts, c) == WithCount(s, counts, c)
    decreases |s|
  {
    if |s| > 0 {
      SortByCountIsStable(s[1..], counts, c);
      InsertKeepsEqualCountOrder(s[0], SortByCount(s[1..], counts), counts, c);
    }
  }

  /**
   * The ranking holds exactly the keys of the table, each once, with
   * counts never increasing from one tag to the next.
   */
  lemma SortedTagsRanksAllKeys(keys: seq<string>, counts: map<string, int>)
    requires IsKeyOrder(keys, counts)
    ensures var r := SortedTags(keys, counts);
      && (forall k :: k in r <==> k in counts)
      && Distinct(r)
      && |r| == |counts|
      && (forall i :: 0 <= i < |r| - 1 ==> counts[r[i]] >= counts[r[i + 1]])
  {
    assert counts.Keys == set k | k in keys;
    DistinctCardinality(keys);
  }

  /** Tags with equal counts appear in the ranking in their enumeration order. */
  lemma SortedTagsKeepsTieOrder(keys: seq<string>, counts: map<string, int>, c: int)
    requires IsKeyOrder(keys, counts)
    ensures WithCount(SortedTags(keys, counts), counts, c) == WithCount(keys, counts, c)
  {
    SortByCountIsStable(keys, counts, c);
  }

  lemma {:induction false} DistinctCardinality(s: seq<string>)
    requires Distinct(s)
    ensures |set k | k in s| == |s|
    decreases |s|
  {
    if |s| > 0 {
      DistinctCardinality(s[1..]);
      assert (set k | k in s) == (set k | k in s[1..]) + {s[0]};
      assert s[0] !in s[1..];
    }
  }
}
