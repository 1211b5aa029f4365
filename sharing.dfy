/**
 * Why the round-robin hand-out loses and duplicates nothing: merging the
 * sixteen workers' tables, in any arrival order, gives the merge of
 * every chunk's table.
 */
module Sharing {
  import opened Tables
  import opened Workers

  /** The elements of `s` at the indices `idx`, in that order. */
  function Pick<T>(s: seq<T>, idx: seq<nat>): seq<T>
    requires forall k :: 0 <= k < |idx| ==> idx[k] < |s|
  {
    seq(|idx|, k requires 0 <= k < |idx| => s[idx[k]])
  }

  /** What worker `i` holds once the first `m` chunks, with tables `A`, are handed out. */
  function Share(A: seq<Table>, m: nat, i: nat): Table
    requires m <= |A|
  {
    OwnedBounds(m, WorkPool, i);
    Total(Pick(A, OwnedFrom(m, WorkPool, i)))
  }

  /** Every worker's share. */
  function Shares(A: seq<Table>, m: nat): seq<Table>
    requires m <= |A|
  {
    seq(WorkPool, i requires 0 <= i < WorkPool => Share(A, m, i))
  }

  /** Merging `x` into one of the tables merges it into their total. */
  lemma {:induction false} TotalBump(ts: seq<Table>, k: nat, x: Table)
    requires k < |ts|
    ensures Total(ts[k := Merge(ts[k], x)]) == Merge(Total(ts), x)
  {
    var ts' := ts[k := Merge(ts[k], x)];
    var rest := Total(ts[1..]);
    assert Total(ts) == Merge(ts[0], rest);
    if k == 0 {
      assert ts'[1..] == ts[1..];
      assert Total(ts') == Merge(Merge(ts[0], x), rest);
      MergeSwap(ts[0], x, rest);
    } else {
      var tail := ts[1..][k - 1 := Merge(ts[1..][k - 1], x)];
      assert ts'[1..] == tail;
      assert Total(ts') == Merge(ts[0], Total(tail));
      TotalBump(ts[1..], k - 1, x);
      MergeAssociates(ts[0], rest, x);
    }
  }

  lemma {:induction false} TotalEmpties(ts: seq<Table>)
    requires forall k :: 0 <= k < |ts| ==> ts[k] == map[]
    ensures Total(ts) == map[]
  {
    if ts != [] {
      TotalEmpties(ts[1..]);
      MergeEmpty(ts[0]);
    }
  }

  /** Chunk `m` goes to worker `m mod WorkPool` and to no other. */
  lemma ShareGrow(A: seq<Table>, m: nat, i: nat)
    requires m < |A| && i < WorkPool
    ensures Share(A, m + 1, i) == if i == m % WorkPool then Merge(Share(A, m, i), A[m]) else Share(A, m, i)
  {
    OwnedGrow(m, WorkPool, i);
    OwnedBounds(m, WorkPool, i);
    OwnedBounds(m + 1, WorkPool, i);
    if i <= m {
      Residue(m, WorkPool, i);
    } else {
      DivModUnique(m, WorkPool, 0, m);
    }
    if i == m % WorkPool {
      PickSnoc(A, OwnedFrom(m, WorkPool, i), m);
    }
  }

  /** One more index at the end picks one more table, merged in last. */
  lemma PickSnoc(A: seq<Table>, o: seq<nat>, m: nat)
    requires m < |A| && forall k :: 0 <= k < |o| ==> o[k] < |A|
    ensures Total(Pick(A, o + [m])) == Merge(Total(Pick(A, o)), A[m])
  {
    assert Pick(A, o + [m]) == Pick(A, o) + [A[m]];
    TotalSnoc(Pick(A, o), A[m]);
  }

  /** Once `m` chunks are handed out, the shares together hold the first `m` chunks' tables. */
  lemma {:induction false} SharesTotal(A: seq<Table>, m: nat)
    requires m <= |A|
    ensures Total(Shares(A, m)) == Total(A[..m])
  {
    if m == 0 {
      SharesNone(A);
    } else {
      var n := m - 1;
      SharesTotal(A, n);
      SharesStep(A, n);
      assert A[..m] == A[..n] + [A[n]];
      TotalSnoc(A[..n], A[n]);
    }
  }

  /** Before any chunk is handed out every share is empty. */
  lemma SharesNone(A: seq<Table>)
    ensures Total(Shares(A, 0)) == map[]
  {
    forall i | 0 <= i < WorkPool ensures Shares(A, 0)[i] == map[] {
      assert OwnedFrom(0, WorkPool, i) == [];
      assert Pick(A, []) == [];
    }
    TotalEmpties(Shares(A, 0));
  }

  /** Handing out chunk `n` merges its table into the total of the shares. */
  lemma SharesStep(A: seq<Table>, n: nat)
    requires n < |A|
    ensures Total(Shares(A, n + 1)) == Merge(Total(Shares(A, n)), A[n])
  {
    var before, after := Shares(A, n), Shares(A, n + 1);
    var k := n % WorkPool;
    var bumped := before[k := Merge(before[k], A[n])];
    forall i | 0 <= i < WorkPool ensures after[i] == bumped[i] {
      ShareGrow(A, n, i);
    }
    assert after == bumped;
    TotalBump(before, k, A[n]);
  }

  /** Reordering the indices reorders what they pick. */
  lemma {:induction false} PickPermutation<T>(s: seq<T>, a: seq<nat>, b: seq<nat>)
    requires forall k :: 0 <= k < |a| ==> a[k] < |s|
    requires forall k :: 0 <= k < |b| ==> b[k] < |s|
    requires multiset(a) == multiset(b)
    ensures multiset(Pick(s, a)) == multiset(Pick(s, b))
    decreases |a|
  {
    if a == [] {
      assert |b| == |multiset(b)| == 0;
    } else {
      assert a[0] in multiset(b);
      var k :| 0 <= k < |b| && b[k] == a[0];
      RemoveOne(a, b, k);
      PickSplit(s, a, b, k);
      PickPermutation(s, a[1..], Without(b, k));
      PutBack(Pick(s, a), Pick(s, b), Pick(s, b[..k]), Pick(s, b[k + 1..]), Pick(s, a[1..]), s[a[0]]);
    }
  }

  lemma PickSplit<T>(s: seq<T>, a: seq<nat>, b: seq<nat>, k: nat)
    requires forall j :: 0 <= j < |a| ==> a[j] < |s|
    requires forall j :: 0 <= j < |b| ==> b[j] < |s|
    requires a != [] && k < |b| && b[k] == a[0]
    ensures forall j :: 0 <= j < |Without(b, k)| ==> Without(b, k)[j] < |s|
    ensures Pick(s, a) == [s[a[0]]] + Pick(s, a[1..])
    ensures Pick(s, b) == Pick(s, b[..k]) + [s[a[0]]] + Pick(s, b[k + 1..])
    ensures Pick(s, Without(b, k)) == Pick(s, b[..k]) + Pick(s, b[k + 1..])
  {
    var pre, post := b[..k], b[k + 1..];
    forall j | 0 <= j < |pre + post| ensures (pre + post)[j] < |s| {
      if j < k {
        assert (pre + post)[j] == b[j];
      } else {
        assert (pre + post)[j] == b[j + 1];
      }
    }
    assert a == [a[0]] + a[1..];
    assert b == pre + [a[0]] + post;
    PickConcat(s, [a[0]], a[1..]);
    PickConcat(s, pre, [a[0]]);
    PickConcat(s, pre + [a[0]], post);
    PickConcat(s, pre, post);
  }

  lemma PutBack<T>(u: seq<T>, v: seq<T>, p: seq<T>, q: seq<T>, r: seq<T>, y: T)
    requires u == [y] + r && v == p + [y] + q && multiset(r) == multiset(p + q)
    ensures multiset(u) == multiset(v)
  {
    assert multiset(v) == multiset(p) + multiset{y} + multiset(q);
  }

  lemma PickConcat<T>(s: seq<T>, x: seq<nat>, y: seq<nat>)
    requires forall k :: 0 <= k < |x| ==> x[k] < |s|
    requires forall k :: 0 <= k < |y| ==> y[k] < |s|
    ensures forall k :: 0 <= k < |x + y| ==> (x + y)[k] < |s|
    ensures Pick(s, x + y) == Pick(s, x) + Pick(s, y)
  {
  }

  /** The shares merged in any arrival order give every chunk's table merged. */
  lemma ArrivalTotal(A: seq<Table>, order: seq<nat>)
    requires forall k :: 0 <= k < |order| ==> order[k] < WorkPool
    requires multiset(order) == multiset(Range(WorkPool))
    ensures Total(Pick(Shares(A, |A|), order)) == Total(A)
  {
    var sh := Shares(A, |A|);
    PickPermutation(sh, order, Range(WorkPool));
    assert Pick(sh, Range(WorkPool)) == sh;
    TotalPermutation(Pick(sh, order), sh);
    SharesTotal(A, |A|);
    assert A[..|A|] == A;
  }
}
