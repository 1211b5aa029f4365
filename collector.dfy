/**
 * The collector (concurrent/concurrent.go:83-108): the main goroutine
 * receives one table per worker, in whatever order the workers finish,
 * and merges each into the global table key by key.
 */
module Collector {
  import opened Stats
  import opened Tables
  import opened Hashing

  /** The entries of `w` whose keys are in `ks`. */
  function Restrict(w: Dict, ks: set<nat>): (r: Dict)
    ensures r.Keys == w.Keys * ks
    ensures forall k :: k in r ==> r[k] == w[k]
  {
    map k | k in w.Keys * ks :: w[k]
  }

  /**
   * The loop over one received table: each of its keys, in some order, is
   * copied into `m` when `m` lacks it, and otherwise merged into `m`'s
   * entry, which keeps its name.
   */
  method MergeIn(m: Dict, recvm: Dict) returns (m': Dict)
    ensures m' == MergeInto(m, recvm)
  {
    m' := m;
    var todo := recvm.Keys;
    ghost var done: set<nat> := {};
    while todo != {}
      invariant todo <= recvm.Keys && done == recvm.Keys - todo
      invariant m' == MergeInto(m, Restrict(recvm, done))
      decreases todo
    {
      var k :| k in todo;
      MergeInOne(m, recvm, done, k);
      if k !in m' {
        m' := m'[k := recvm[k]];
      } else {
        var md := m'[k];
        m' := m'[k := Entry(Combine(md.stats, recvm[k].stats), md.name)];
      }
      todo := todo - {k};
      done := done + {k};
    }
    assert Restrict(recvm, done) == recvm;
  }

  /** Merging one more key of `w` updates the merged table at that key only. */
  lemma MergeInOne(g: Dict, w: Dict, done: set<nat>, k: nat)
    requires k in w && k !in done
    ensures var before := MergeInto(g, Restrict(w, done));
      MergeInto(g, Restrict(w, done + {k})) ==
        if k !in before then before[k := w[k]]
        else before[k := Entry(Combine(before[k].stats, w[k].stats), before[k].name)]
  {
    assert Restrict(w, done + {k}) == Restrict(w, done)[k := w[k]];
    MergeIntoAdd(g, Restrict(w, done), k, w[k]);
  }

  /** One more key `k` in the table being merged in changes the result at `k` only. */
  lemma MergeIntoAdd(g: Dict, r: Dict, k: nat, e: Entry)
    requires k !in r
    ensures var before := MergeInto(g, r);
      MergeInto(g, r[k := e]) ==
        if k !in before then before[k := e]
        else before[k := Entry(Combine(before[k].stats, e.stats), before[k].name)]
  {
    var before, after := MergeInto(g, r), MergeInto(g, r[k := e]);
    var wanted :=
      if k !in before then before[k := e]
      else before[k := Entry(Combine(before[k].stats, e.stats), before[k].name)];
    assert after.Keys == wanted.Keys;
    forall h | h in after ensures after[h] == wanted[h] {
      if h != k {
        assert h in r[k := e] <==> h in r;
      }
    }
  }

  /** The received tables merged, in arrival order, into `m`. */
  function MergeAll(m: Dict, arrivals: seq<Dict>): (r: Dict)
    ensures forall h :: h in r <==> h in m || exists i :: 0 <= i < |arrivals| && h in arrivals[i]
    ensures forall h :: h in m ==> r[h].name == m[h].name
    decreases |arrivals|
  {
    if arrivals == [] then m else MergeAll(MergeInto(m, arrivals[0]), arrivals[1..])
  }

  /**
   * The receive loop: every received table is merged into the global
   * table, which starts empty.
   */
  method Collect(arrivals: seq<Dict>) returns (m: Dict)
    ensures m == MergeAll(map[], arrivals)
  {
    m := map[];
    for i := 0 to |arrivals|
      invariant MergeAll(m, arrivals[i..]) == MergeAll(map[], arrivals)
    {
      assert arrivals[i..][1..] == arrivals[i + 1..];
      m := MergeIn(m, arrivals[i]);
    }
  }

  // ---------------------------------------------------------------------
  // Arrival order changes nothing but the names kept.

  /** The aggregates of a table, by hash, without the names. */
  function StatsOf(d: Dict): (s: map<nat, Stats>)
    ensures s.Keys == d.Keys
    ensures forall h :: h in d ==> s[h] == d[h].stats
  {
    map h | h in d :: d[h].stats
  }

  /** The aggregates of each table, in order. */
  function StatsAll(ds: seq<Dict>): (ss: seq<map<nat, Stats>>)
    ensures |ss| == |ds|
    ensures forall i :: 0 <= i < |ds| ==> ss[i] == StatsOf(ds[i])
  {
    seq(|ds|, i requires 0 <= i < |ds| => StatsOf(ds[i]))
  }

  /** Folding a table in by hash merges its aggregates, whichever names are kept. */
  lemma StatsOfMergeInto(g: Dict, w: Dict)
    ensures StatsOf(MergeInto(g, w)) == Merge(StatsOf(g), StatsOf(w))
  {
  }

  /** The aggregates of the receive loop's result are those of all the received tables merged. */
  lemma {:induction false} StatsOfMergeAll(m: Dict, arrivals: seq<Dict>)
    ensures StatsOf(MergeAll(m, arrivals)) == Merge(StatsOf(m), Total(StatsAll(arrivals)))
    decreases |arrivals|
  {
    if arrivals == [] {
      MergeEmpty(StatsOf(m));
    } else {
      var first, rest := arrivals[0], arrivals[1..];
      assert StatsAll(arrivals)[1..] == StatsAll(rest);
      StatsOfMergeAll(MergeInto(m, first), rest);
      StatsOfMergeInto(m, first);
      MergeAssociates(StatsOf(m), StatsOf(first), Total(StatsAll(rest)));
    }
  }

  /** Permuting the tables permutes their aggregates. */
  lemma {:induction false} StatsAllPermutation(a: seq<Dict>, b: seq<Dict>)
    requires multiset(a) == multiset(b)
    ensures multiset(StatsAll(a)) == multiset(StatsAll(b))
    decreases |a|
  {
    if a == [] {
      assert |b| == |multiset(b)| == 0;
    } else {
      assert a[0] in multiset(b);
      var k :| 0 <= k < |b| && b[k] == a[0];
      RemoveOne(a, b, k);
      StatsAllPermutation(a[1..], Without(b, k));
      var sa, sb, rest := StatsAll(a), StatsAll(b), StatsAll(Without(b, k));
      assert sa == [sa[0]] + StatsAll(a[1..]);
      assert sb == sb[..k] + [sa[0]] + sb[k + 1..];
      assert rest == sb[..k] + sb[k + 1..];
    }
  }

  /**
   * Whatever order the workers' tables arrive in, the global table has
   * the same hashes and the same aggregate under each; only the name an
   * entry keeps can differ, when names share a hash.
   */
  lemma ArrivalOrderFree(a: seq<Dict>, b: seq<Dict>)
    requires multiset(a) == multiset(b)
    ensures MergeAll(map[], a).Keys == MergeAll(map[], b).Keys
    ensures forall h :: h in MergeAll(map[], a) ==> MergeAll(map[], a)[h].stats == MergeAll(map[], b)[h].stats
  {
    StatsOfMergeAll(map[], a);
    StatsOfMergeAll(map[], b);
    StatsAllPermutation(a, b);
    TotalPermutation(StatsAll(a), StatsAll(b));
    assert StatsOf(MergeAll(map[], a)) == StatsOf(MergeAll(map[], b));
  }
}
