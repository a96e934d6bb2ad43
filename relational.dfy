/**
 * The dataframe operations the pipeline chains together, over tables held
 * as sequences of rows.  A table is a bag of rows: the order of a sequence
 * is a modelling choice and no property below depends on it, except where
 * a row's position is used as its surrogate id.
 */
module Relational {

  /** No row occurs twice: what every drop_duplicates() leaves behind. */
  predicate NoDuplicates<T(==,!new)>(s: seq<T>) {
    forall i, j :: 0 <= i < j < |s| ==> s[i] != s[j]
  }

  /**
   * drop_duplicates() over all columns: equal rows collapse to one.  The
   * first occurrence of each row is kept.
   */
  function Dedup<T(==,!new)>(s: seq<T>): (r: seq<T>)
    ensures NoDuplicates(r)
    ensures forall x :: x in r <==> x in s
    ensures |r| <= |s|
    decreases |s|
  {
    if |s| == 0 then []
    else
      var kept := Dedup(s[..|s| - 1]);
      if s[|s| - 1] in kept then kept else kept + [s[|s| - 1]]
  }

  /** A table that already has no duplicates passes through Dedup unchanged. */
  lemma {:induction false} DedupOfDistinct<T(!new)>(s: seq<T>)
    requires NoDuplicates(s)
    ensures Dedup(s) == s
    decreases |s|
  {
    if |s| > 0 {
      var p := s[..|s| - 1];
      assert NoDuplicates(p);
      DedupOfDistinct(p);
      assert s[|s| - 1] !in p;
      assert p + [s[|s| - 1]] == s;
    }
  }

  /** Dropping duplicates a second time changes nothing. */
  lemma DedupIdempotent<T(!new)>(s: seq<T>)
    ensures Dedup(Dedup(s)) == Dedup(s)
  {
    DedupOfDistinct(Dedup(s));
  }

  /** filter(): the rows satisfying `p`, each kept as often as it occurs. */
  function Filter<T(==,!new)>(s: seq<T>, p: T -> bool): (r: seq<T>)
    ensures |r| <= |s|
    ensures forall x :: multiset(r)[x] == if p(x) then multiset(s)[x] else 0
    ensures forall x :: x in r <==> x in s && p(x)
    decreases |s|
  {
    if |s| == 0 then []
    else
      assert s == [s[0]] + s[1..];
      (if p(s[0]) then [s[0]] else []) + Filter(s[1..], p)
  }

  /** Filtering distributes over concatenation of tables. */
  lemma {:induction false} FilterAppend<T(!new)>(a: seq<T>, b: seq<T>, p: T -> bool)
    ensures Filter(a + b, p) == Filter(a, p) + Filter(b, p)
    decreases |a|
  {
    if |a| > 0 {
      assert (a + b)[1..] == a[1..] + b;
      FilterAppend(a[1..], b, p);
    } else {
      assert a + b == b;
    }
  }

  /** Filtering a sequence with one row inserted filters the row on its own. */
  lemma FilterInsert<T(!new)>(a: seq<T>, x: T, b: seq<T>, p: T -> bool)
    ensures Filter(a + [x] + b, p) == Filter(a, p) + Filter([x], p) + Filter(b, p)
    ensures Filter(a + b, p) == Filter(a, p) + Filter(b, p)
  {
    FilterAppend(a + [x], b, p);
    FilterAppend(a, [x], p);
    FilterAppend(a, b, p);
  }

  /** A row the predicate rejects can be inserted anywhere without changing the filter's result. */
  lemma {:induction false} FilterInsertRejected<T(!new)>(a: seq<T>, x: T, b: seq<T>, p: T -> bool)
    requires !p(x)
    ensures Filter(a + [x] + b, p) == Filter(a + b, p)
    decreases |a|
  {
    if |a| == 0 {
      assert a + [x] + b == [x] + b && ([x] + b)[1..] == b && a + b == b;
    } else {
      assert (a + [x] + b)[0] == (a + b)[0] == a[0];
      assert (a + [x] + b)[1..] == a[1..] + [x] + b;
      assert (a + b)[1..] == a[1..] + b;
      FilterInsertRejected(a[1..], x, b, p);
    }
  }

  /** select(): every row is mapped through the column projection `f`. */
  function Project<T(!new), U(!new)>(s: seq<T>, f: T -> U): (r: seq<U>)
    ensures |r| == |s|
    ensures forall i :: 0 <= i < |s| ==> r[i] == f(s[i])
    ensures forall y :: y in r <==> exists x :: x in s && f(x) == y
  {
    var r := seq(|s|, i requires 0 <= i < |s| => f(s[i]));
    assert forall x :: x in s ==> f(x) in r by {
      forall x | x in s ensures f(x) in r {
        var i :| 0 <= i < |s| && s[i] == x;
        assert r[i] == f(x);
      }
    }
    r
  }

  /** The pairs an inner join forms for one left row, in the order of `right`. */
  function Matches<A(!new), B(!new)>(a: A, right: seq<B>, on: (A, B) -> bool): (r: seq<(A, B)>)
    ensures forall q :: q in r <==> q.0 == a && q.1 in right && on(a, q.1)
    decreases |right|
  {
    if |right| == 0 then []
    else
      assert right == [right[0]] + right[1..];
      (if on(a, right[0]) then [(a, right[0])] else []) + Matches(a, right[1..], on)
  }

  /**
   * join(right, on, how='inner'): one output row per pair of a left row and
   * a right row that satisfy the join condition.
   */
  function InnerJoin<A(!new), B(!new)>(left: seq<A>, right: seq<B>, on: (A, B) -> bool): (r: seq<(A, B)>)
    ensures forall q :: q in r <==> q.0 in left && q.1 in right && on(q.0, q.1)
    decreases |left|
  {
    if |left| == 0 then []
    else
      assert left == [left[0]] + left[1..];
      Matches(left[0], right, on) + InnerJoin(left[1..], right, on)
  }

  /** The operators on a one-row table. */
  lemma SingleRow<T(!new), U(!new)>(x: T, p: T -> bool, f: T -> U)
    ensures Dedup([x]) == [x]
    ensures Filter([x], p) == if p(x) then [x] else []
    ensures Project([x], f) == [f(x)]
  {
    assert [x][..0] == [] && [x][1..] == [];
  }

  /** Joining a one-row left table gives that row's matches. */
  lemma InnerJoinSingleLeft<A(!new), B(!new)>(a: A, right: seq<B>, on: (A, B) -> bool)
    ensures InnerJoin([a], right, on) == Matches(a, right, on)
  {
    assert [a][1..] == [];
  }

  /** Joining a concatenation of left tables joins each part. */
  lemma {:induction false} InnerJoinAppend<A(!new), B(!new)>(a: seq<A>, b: seq<A>, right: seq<B>, on: (A, B) -> bool)
    ensures InnerJoin(a + b, right, on) == InnerJoin(a, right, on) + InnerJoin(b, right, on)
    decreases |a|
  {
    if |a| > 0 {
      assert (a + b)[1..] == a[1..] + b;
      InnerJoinAppend(a[1..], b, right, on);
    } else {
      assert a + b == b;
    }
  }

  /** Rows of the left table that meet nothing can be inserted without changing the join. */
  lemma InnerJoinInsertUnmatched<A(!new), B(!new)>(a: seq<A>, m: seq<A>, b: seq<A>, right: seq<B>, on: (A, B) -> bool)
    requires InnerJoin(m, right, on) == []
    ensures InnerJoin(a + m + b, right, on) == InnerJoin(a + b, right, on)
  {
    InnerJoinAppend(a + m, b, right, on);
    InnerJoinAppend(a, m, right, on);
    InnerJoinAppend(a, b, right, on);
    assert InnerJoin(a, right, on) + [] == InnerJoin(a, right, on);
  }

  lemma {:induction false} MatchesMultiplicity<A(!new), B(!new)>(a: A, right: seq<B>, on: (A, B) -> bool, x: A, y: B)
    ensures multiset(Matches(a, right, on))[(x, y)] == if x == a && on(a, y) then multiset(right)[y] else 0
    decreases |right|
  {
    if |right| > 0 {
      MatchesMultiplicity(a, right[1..], on, x, y);
      assert right == [right[0]] + right[1..];
    }
  }

  /**
   * Bag semantics of the inner join: a matching pair (x, y) occurs as many
   * times as x occurs on the left times the number of times y occurs on the
   * right, and a non-matching pair never occurs.
   */
  lemma {:induction false} InnerJoinMultiplicity<A(!new), B(!new)>(left: seq<A>, right: seq<B>, on: (A, B) -> bool, x: A, y: B)
    ensures multiset(InnerJoin(left, right, on))[(x, y)]
         == if on(x, y) then multiset(left)[x] * multiset(right)[y] else 0
    decreases |left|
  {
    var k := multiset(right)[y];
    if |left| == 0 {
      assert multiset(left)[x] * k == 0 * k == 0;
    } else {
      var here := Matches(left[0], right, on);
      var rest := InnerJoin(left[1..], right, on);
      var n := multiset(left[1..])[x];
      var hit := if x == left[0] then 1 else 0;
      assert multiset(InnerJoin(left, right, on))[(x, y)] == multiset(here)[(x, y)] + multiset(rest)[(x, y)] by {
        assert InnerJoin(left, right, on) == here + rest;
      }
      assert multiset(rest)[(x, y)] == if on(x, y) then n * k else 0 by {
        InnerJoinMultiplicity(left[1..], right, on, x, y);
      }
      assert multiset(here)[(x, y)] == if on(x, y) then hit * k else 0 by {
        MatchesMultiplicity(left[0], right, on, x, y);
      }
      HeadMultiplicity(left, x);
      CombineCounts(multiset(InnerJoin(left, right, on))[(x, y)], multiset(here)[(x, y)], multiset(rest)[(x, y)],
                    on(x, y), n, hit, k, multiset(left)[x]);
    }
  }

  /** The occurrences of `x` in a nonempty table: those in its tail, plus one if it is the head. */
  lemma HeadMultiplicity<T(!new)>(s: seq<T>, x: T)
    requires |s| > 0
    ensures multiset(s)[x] == multiset(s[1..])[x] + if x == s[0] then 1 else 0
  {
    assert s == [s[0]] + s[1..];
  }

  /** The count of a pair in a join, from the counts in its first row's matches and in the rest. */
  lemma CombineCounts(total: int, here: int, rest: int, hits: bool, n: nat, hit: nat, k: nat, m: nat)
    requires total == here + rest
    requires rest == if hits then n * k else 0
    requires here == if hits then hit * k else 0
    requires m == n + hit
    ensures total == if hits then m * k else 0
  {
    assert (n + hit) * k == n * k + hit * k;
  }

  /**
   * When a left row pairs with exactly one right row `w`, and the right
   * table has no duplicates, its matches are that single pair.
   */
  lemma {:induction false} MatchesSingle<A(!new), B(!new)>(a: A, right: seq<B>, on: (A, B) -> bool, w: B)
    requires NoDuplicates(right)
    requires w in right && on(a, w)
    requires forall y :: y in right && on(a, y) ==> y == w
    ensures Matches(a, right, on) == [(a, w)]
    decreases |right|
  {
    assert right == [right[0]] + right[1..];
    if right[0] == w {
      assert w !in right[1..];
      MatchesNone(a, right[1..], on);
    } else {
      assert NoDuplicates(right[1..]);
      MatchesSingle(a, right[1..], on, w);
    }
  }

  lemma {:induction false} MatchesNone<A(!new), B(!new)>(a: A, right: seq<B>, on: (A, B) -> bool)
    requires forall y :: y in right ==> !on(a, y)
    ensures Matches(a, right, on) == []
    decreases |right|
  {
    if |right| > 0 {
      assert right[0] in right;
      MatchesNone(a, right[1..], on);
    }
  }

  /**
   * A join in which every left row meets exactly one right row keeps the
   * left table row for row.
   */
  lemma {:induction false} InnerJoinFunctional<A(!new), B(!new)>(left: seq<A>, right: seq<B>, on: (A, B) -> bool, pick: A -> B)
    requires NoDuplicates(right)
    requires forall a :: a in left ==> pick(a) in right && on(a, pick(a))
    requires forall a, y :: a in left && y in right && on(a, y) ==> y == pick(a)
    ensures |InnerJoin(left, right, on)| == |left|
    ensures forall i :: 0 <= i < |left| ==> InnerJoin(left, right, on)[i] == (left[i], pick(left[i]))
    decreases |left|
  {
    if |left| > 0 {
      assert left == [left[0]] + left[1..];
      MatchesSingle(left[0], right, on, pick(left[0]));
      InnerJoinFunctional(left[1..], right, on, pick);
      var r := InnerJoin(left, right, on);
      assert r == [(left[0], pick(left[0]))] + InnerJoin(left[1..], right, on);
      forall i | 0 <= i < |left| ensures r[i] == (left[i], pick(left[i])) {
        if i > 0 {
          assert r[i] == InnerJoin(left[1..], right, on)[i - 1];
        }
      }
    }
  }

  /** In a table without duplicates every row occurs exactly once. */
  lemma {:induction false} DistinctMultiplicity<T(!new)>(s: seq<T>, x: T)
    requires NoDuplicates(s)
    ensures multiset(s)[x] == if x in s then 1 else 0
    decreases |s|
  {
    if |s| > 0 {
      assert s == [s[0]] + s[1..];
      assert NoDuplicates(s[1..]);
      DistinctMultiplicity(s[1..], x);
      assert s[0] !in s[1..];
    }
  }

  /** Selects the joined pairs whose left row is `a`. */
  ghost function LeftIs<A(!new), B(!new)>(a: A): ((A, B)) -> bool {
    (q: (A, B)) => q.0 == a
  }

  /** Selects the right rows that pair with the left row `a`. */
  function PairsWith<A(!new), B(!new)>(on: (A, B) -> bool, a: A): B -> bool {
    b => on(a, b)
  }

  lemma {:induction false} MatchesLength<A(!new), B(!new)>(a: A, right: seq<B>, on: (A, B) -> bool)
    ensures |Matches(a, right, on)| == |Filter(right, PairsWith(on, a))|
    decreases |right|
  {
    if |right| > 0 {
      MatchesLength(a, right[1..], on);
    }
  }

  lemma {:induction false} MatchesOfLeft<A(!new), B(!new)>(x: A, right: seq<B>, on: (A, B) -> bool, a: A)
    ensures Filter(Matches(x, right, on), LeftIs(a)) == if x == a then Matches(x, right, on) else []
    decreases |right|
  {
    if |right| > 0 {
      var head: seq<(A, B)> := if on(x, right[0]) then [(x, right[0])] else [];
      FilterAppend(head, Matches(x, right[1..], on), LeftIs(a));
      MatchesOfLeft(x, right[1..], on, a);
    }
  }

  /**
   * Fan-out of an inner join: a left row yields one joined row per right
   * row it pairs with, once for each time it occurs on the left.
   */
  lemma {:induction false} JoinRowsOfLeftRow<A(!new), B(!new)>(left: seq<A>, right: seq<B>, on: (A, B) -> bool, a: A)
    ensures |Filter(InnerJoin(left, right, on), LeftIs(a))|
         == multiset(left)[a] * |Filter(right, PairsWith(on, a))|
    decreases |left|
  {
    var k := |Filter(right, PairsWith(on, a))|;
    if |left| == 0 {
      assert multiset(left)[a] * k == 0 * k == 0;
    } else {
      var here := Matches(left[0], right, on);
      var rest := InnerJoin(left[1..], right, on);
      var n := multiset(left[1..])[a];
      var hit := left[0] == a;
      assert |Filter(InnerJoin(left, right, on), LeftIs(a))|
          == |Filter(here, LeftIs(a))| + |Filter(rest, LeftIs(a))| by {
        assert InnerJoin(left, right, on) == here + rest;
        FilterAppend(here, rest, LeftIs(a));
      }
      assert |Filter(rest, LeftIs(a))| == n * k by {
        JoinRowsOfLeftRow(left[1..], right, on, a);
      }
      assert |Filter(here, LeftIs(a))| == if hit then k else 0 by {
        MatchesOfLeft(left[0], right, on, a);
        MatchesLength(a, right, on);
      }
      HeadMultiplicity(left, a);
      CombineCounts(|Filter(InnerJoin(left, right, on), LeftIs(a))|, |Filter(here, LeftIs(a))|, |Filter(rest, LeftIs(a))|,
                    true, n, if hit then 1 else 0, k, multiset(left)[a]);
    }
  }

  /** The distinct partition-key values present in a table. */
  function KeysOf<T(==,!new), K(==,!new)>(rows: seq<T>, key: T -> K): set<K> {
    set x | x in rows :: key(x)
  }

  /**
   * write.parquet(partitionBy=...): rows are grouped by their partition-key
   * value; each group is written under its own key directory.
   */
  function PartitionBy<T(==,!new), K(==,!new)>(rows: seq<T>, key: T -> K): (groups: map<K, seq<T>>)
    ensures forall k :: k in groups <==> exists x :: x in rows && key(x) == k
    ensures forall k, x :: k in groups ==>
      multiset(groups[k])[x] == if key(x) == k then multiset(rows)[x] else 0
    ensures forall k :: k in groups ==> |groups[k]| > 0
  {
    var groups := map k | k in KeysOf(rows, key) :: Filter(rows, x => key(x) == k);
    assert forall k :: k in groups ==> |groups[k]| > 0 by {
      forall k | k in groups ensures |groups[k]| > 0 {
        var x :| x in rows && key(x) == k;
        assert x in groups[k];
      }
    }
    groups
  }

  /**
   * Partition consistency: every row in a group carries that group's key,
   * and every row of the table is in the group of its own key.
   */
  lemma PartitionConsistent<T(!new), K(!new)>(rows: seq<T>, key: T -> K)
    ensures forall k, x :: k in PartitionBy(rows, key) && x in PartitionBy(rows, key)[k] ==> key(x) == k
    ensures forall x :: x in rows ==> key(x) in PartitionBy(rows, key) && x in PartitionBy(rows, key)[key(x)]
  {
    var groups := PartitionBy(rows, key);
    forall k, x | k in groups && x in groups[k] ensures key(x) == k {
      assert multiset(groups[k])[x] > 0;
    }
    forall x | x in rows ensures key(x) in groups && x in groups[key(x)] {
      assert multiset(groups[key(x)])[x] == multiset(rows)[x];
    }
  }
}
