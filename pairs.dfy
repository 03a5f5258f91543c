// The unordered pairs of a list that the collision phases enumerate with a
// nested `for i; for j > i` loop, in the order that loop visits them.
module Pairs {

  /** The kept pairs `(es[i], es[k])` for `i < k < n`, by increasing `k`. */
  function Row<T>(es: seq<T>, i: nat, n: nat, keep: (T, T) -> bool): (r: seq<(T, T)>)
    requires i < |es| && n <= |es|
    ensures |r| <= if n <= i then 0 else n - i
    decreases n
  {
    if n <= i + 1 then []
    else Row(es, i, n - 1, keep) + if keep(es[i], es[n - 1]) then [(es[i], es[n - 1])] else []
  }

  /** The kept pairs `(es[i], es[j])` for `i < m` and `i < j`, in loop order. */
  function UpperPairs<T>(es: seq<T>, m: nat, keep: (T, T) -> bool): seq<(T, T)>
    requires m <= |es|
    decreases m
  {
    if m == 0 then [] else UpperPairs(es, m - 1, keep) + Row(es, m - 1, |es|, keep)
  }

  /** The pairs of the whole nested loop. */
  function AllPairs<T>(es: seq<T>, keep: (T, T) -> bool): seq<(T, T)>
  {
    UpperPairs(es, |es|, keep)
  }

  /** A row holds exactly the kept pairs of entry `i` with a later entry below `n`. */
  lemma {:induction false} RowMembers<T>(es: seq<T>, i: nat, n: nat, keep: (T, T) -> bool)
    requires i < |es| && n <= |es|
    ensures forall k :: i < k < n && keep(es[i], es[k]) ==> (es[i], es[k]) in Row(es, i, n, keep)
    ensures forall p :: p in Row(es, i, n, keep) ==>
              exists k :: i < k < n && p == (es[i], es[k]) && keep(es[i], es[k])
    decreases n
  {
    if n > i + 1 {
      RowMembers(es, i, n - 1, keep);
    }
  }

  /**
   * The nested loop yields every kept pair `(es[i], es[j])` with `i < j`,
   * and nothing else.
   */
  lemma {:induction false} UpperPairsMembers<T>(es: seq<T>, m: nat, keep: (T, T) -> bool)
    requires m <= |es|
    ensures forall i, j :: 0 <= i < m && i < j < |es| && keep(es[i], es[j]) ==>
              (es[i], es[j]) in UpperPairs(es, m, keep)
    ensures forall p :: p in UpperPairs(es, m, keep) ==>
              exists i, j :: 0 <= i < m && i < j < |es| && p == (es[i], es[j]) && keep(es[i], es[j])
    decreases m
  {
    if m > 0 {
      var upper := UpperPairs(es, m - 1, keep);
      var row := Row(es, m - 1, |es|, keep);
      assert UpperPairs(es, m, keep) == upper + row;
      UpperPairsMembers(es, m - 1, keep);
      RowMembers(es, m - 1, |es|, keep);
      forall i, j | 0 <= i < m && i < j < |es| && keep(es[i], es[j])
        ensures (es[i], es[j]) in upper + row
      {
        if i < m - 1 {
          assert (es[i], es[j]) in upper;
        } else {
          assert (es[i], es[j]) in row;
        }
      }
      forall p | p in upper + row
        ensures exists i, j :: 0 <= i < m && i < j < |es| && p == (es[i], es[j]) && keep(es[i], es[j])
      {
        if p in upper {
          var i, j :| 0 <= i < m - 1 && i < j < |es| && p == (es[i], es[j]) && keep(es[i], es[j]);
        } else {
          var k :| m - 1 < k < |es| && p == (es[m - 1], es[k]) && keep(es[m - 1], es[k]);
        }
      }
    }
  }

  /** Every pair of `AllPairs` is kept and comes from two positions `i < j`; every such pair is in it. */
  lemma AllPairsMembers<T>(es: seq<T>, keep: (T, T) -> bool)
    ensures forall i, j :: 0 <= i < j < |es| && keep(es[i], es[j]) ==> (es[i], es[j]) in AllPairs(es, keep)
    ensures forall p :: p in AllPairs(es, keep) ==>
              keep(p.0, p.1) && exists i, j :: 0 <= i < j < |es| && p == (es[i], es[j])
  {
    UpperPairsMembers(es, |es|, keep);
  }

  /** With a test that keeps every pair, row `i` below `n` has one pair per entry between them. */
  lemma {:induction false} RowLength<T>(es: seq<T>, i: nat, n: nat, keep: (T, T) -> bool)
    requires i < |es| && n <= |es|
    requires forall x, y :: keep(x, y)
    ensures |Row(es, i, n, keep)| == if n <= i then 0 else n - i - 1
    decreases n
  {
    if n > i + 1 {
      RowLength(es, i, n - 1, keep);
    }
  }

  /** With a test that keeps every pair, the first `m` rows hold `m·(2|es| − m − 1)/2` pairs. */
  lemma {:induction false} UpperPairsLength<T>(es: seq<T>, m: nat, keep: (T, T) -> bool)
    requires m <= |es|
    requires forall x, y :: keep(x, y)
    ensures 2 * |UpperPairs(es, m, keep)| == m * (2 * |es| - m - 1)
    decreases m
  {
    if m > 0 {
      UpperPairsLength(es, m - 1, keep);
      RowLength(es, m - 1, |es|, keep);
      PairCountStep(m, |es|);
    }
  }

  /** One more row of `n - m` pairs: the count formula at `m - 1` plus the row gives the formula at `m`. */
  lemma PairCountStep(m: int, n: int)
    ensures (m - 1) * (2 * n - (m - 1) - 1) + 2 * (n - m) == m * (2 * n - m - 1)
  {
    calc {
      (m - 1) * (2 * n - (m - 1) - 1) + 2 * (n - m);
      (m - 1) * (2 * n - m) + 2 * n - 2 * m;
      { assert (m - 1) * (2 * n - m) == m * (2 * n - m) - (2 * n - m); }
      m * (2 * n - m) - 2 * n + m + 2 * n - 2 * m;
      m * (2 * n - m) - m;
      { assert m * (2 * n - m - 1) == m * (2 * n - m) - m; }
      m * (2 * n - m - 1);
    }
  }

  /** With a test that keeps every pair, the nested loop yields `n·(n − 1)/2` pairs. */
  lemma AllPairsLength<T>(es: seq<T>, keep: (T, T) -> bool)
    requires forall x, y :: keep(x, y)
    ensures 2 * |AllPairs(es, keep)| == |es| * (|es| - 1)
  {
    UpperPairsLength(es, |es|, keep);
  }

  /** One step of the inner loop. */
  lemma RowSnoc<T>(es: seq<T>, i: nat, j: nat, keep: (T, T) -> bool)
    requires i < j < |es|
    ensures Row(es, i, j + 1, keep) == Row(es, i, j, keep) + if keep(es[i], es[j]) then [(es[i], es[j])] else []
  {
  }

  /** The inner loop finishing row `i` completes the pairs of the first `i + 1` entries. */
  lemma UpperPairsStep<T>(es: seq<T>, i: nat, keep: (T, T) -> bool)
    requires i < |es|
    ensures UpperPairs(es, i + 1, keep) == UpperPairs(es, i, keep) + Row(es, i, |es|, keep)
  {
  }

  /** `step` applied to the first `n` pairs one after the other, the first pair first. */
  function FoldPrefix<S, T>(step: (S, T, T) -> S, s: S, pairs: seq<(T, T)>, n: nat): S
    requires n <= |pairs|
    decreases n
  {
    if n == 0 then s else step(FoldPrefix(step, s, pairs, n - 1), pairs[n - 1].0, pairs[n - 1].1)
  }

  /** `step` applied to all the pairs one after the other, the first pair first. */
  function Fold<S, T>(step: (S, T, T) -> S, s: S, pairs: seq<(T, T)>): S
  {
    FoldPrefix(step, s, pairs, |pairs|)
  }

  /** What follows the first `n` pairs does not change their fold. */
  lemma {:induction false} FoldPrefixAppend<S, T>(step: (S, T, T) -> S, s: S, pairs: seq<(T, T)>, more: seq<(T, T)>,
                                                  n: nat)
    requires n <= |pairs|
    ensures FoldPrefix(step, s, pairs + more, n) == FoldPrefix(step, s, pairs, n)
    decreases n
  {
    if n > 0 {
      FoldPrefixAppend(step, s, pairs, more, n - 1);
      assert (pairs + more)[n - 1] == pairs[n - 1];
    }
  }

  /** One more pair at the end of a fold. */
  lemma FoldSnoc<S, T>(step: (S, T, T) -> S, s: S, pairs: seq<(T, T)>, p: (T, T))
    ensures Fold(step, s, pairs + [p]) == step(Fold(step, s, pairs), p.0, p.1)
  {
    FoldPrefixAppend(step, s, pairs, [p], |pairs|);
    assert (pairs + [p])[|pairs|] == p;
  }

  /** The state of an inner loop `for j = i + 1; j < n` that steps each kept pair `(es[i], es[j])` of `s`. */
  function RowFold<S, T>(step: (S, T, T) -> S, s: S, es: seq<T>, keep: (T, T) -> bool, i: nat, n: nat): S
    requires i < n <= |es|
    decreases n
  {
    if n == i + 1 then s
    else
      var r := RowFold(step, s, es, keep, i, n - 1);
      if keep(es[i], es[n - 1]) then step(r, es[i], es[n - 1]) else r
  }

  /** The state of the nested loops once their first `m` rows are done. */
  function UpperFold<S, T>(step: (S, T, T) -> S, s: S, es: seq<T>, keep: (T, T) -> bool, m: nat): S
    requires m <= |es|
    decreases m
  {
    if m == 0 then s
    else RowFold(step, UpperFold(step, s, es, keep, m - 1), es, keep, m - 1, |es|)
  }

  /** A partly done row, started after the pairs `pre`, has folded `pre` and then the row's pairs so far. */
  lemma {:induction false} RowFoldIsFold<S, T>(step: (S, T, T) -> S, s: S, pre: seq<(T, T)>, es: seq<T>,
                                               keep: (T, T) -> bool, i: nat, n: nat)
    requires i < n <= |es|
    ensures RowFold(step, Fold(step, s, pre), es, keep, i, n) == Fold(step, s, pre + Row(es, i, n, keep))
    decreases n
  {
    if n == i + 1 {
      assert pre + Row(es, i, n, keep) == pre;
    } else {
      RowFoldIsFold(step, s, pre, es, keep, i, n - 1);
      RowSnoc(es, i, n - 1, keep);
      var p := (es[i], es[n - 1]);
      if keep(es[i], es[n - 1]) {
        assert pre + Row(es, i, n, keep) == (pre + Row(es, i, n - 1, keep)) + [p];
        FoldSnoc(step, s, pre + Row(es, i, n - 1, keep), p);
      } else {
        assert Row(es, i, n, keep) == Row(es, i, n - 1, keep);
      }
    }
  }

  /** The nested loops fold exactly the enumerated pairs, in their order. */
  lemma {:induction false} UpperFoldIsFold<S, T>(step: (S, T, T) -> S, s: S, es: seq<T>, keep: (T, T) -> bool,
                                                 m: nat)
    requires m <= |es|
    ensures UpperFold(step, s, es, keep, m) == Fold(step, s, UpperPairs(es, m, keep))
    decreases m
  {
    if m > 0 {
      UpperFoldIsFold(step, s, es, keep, m - 1);
      RowFoldIsFold(step, s, UpperPairs(es, m - 1, keep), es, keep, m - 1, |es|);
      assert UpperPairs(es, m, keep) == UpperPairs(es, m - 1, keep) + Row(es, m - 1, |es|, keep);
    }
  }

  /**
   * The nested `for i; for j = i + 1` loop that appends every kept pair
   * `(es[i], es[j])`.
   */
  method EnumeratePairs<T>(es: seq<T>, keep: (T, T) -> bool) returns (pairs: seq<(T, T)>)
    ensures pairs == AllPairs(es, keep)
  {
    pairs := [];
    var i := 0;
    while i < |es|
      invariant i <= |es|
      invariant pairs == UpperPairs(es, i, keep)
    {
      i := i + 1;
      pairs := AppendRow(es, i - 1, keep, pairs);
    }
  }

  /** The inner loop of `EnumeratePairs`: appends the kept pairs of entry `i` with every later entry. */
  method AppendRow<T>(es: seq<T>, i: nat, keep: (T, T) -> bool, start: seq<(T, T)>) returns (pairs: seq<(T, T)>)
    requires i < |es|
    ensures pairs == start + Row(es, i, |es|, keep)
  {
    pairs := start;
    var j := i + 1;
    while j < |es|
      invariant i < j <= |es|
      invariant pairs == start + Row(es, i, j, keep)
    {
      RowSnoc(es, i, j, keep);
      if keep(es[i], es[j]) {
        pairs := pairs + [(es[i], es[j])];
      }
      j := j + 1;
    }
  }
}
