/**
 * Aggregation keyed by the station name itself, as the single-threaded
 * program does it, and the algebra that makes the result independent of
 * how the records are grouped: tables merge commutatively and
 * associatively, and aggregating a concatenation is merging the parts.
 */
module Tables {
  import opened Bytes
  import opened Stats

  /** One `name;value` line, its value already in tenths. */
  datatype Record = Record(name: seq<byte>, value: int)

  /** Station name to aggregate. */
  type Table = map<seq<byte>, Stats>

  /** One record into the table: a new name stores `{v,v,v,1}`, a known one is updated. */
  function Add(m: Table, r: Record): (m': Table)
    ensures m'.Keys == m.Keys + {r.name}
    ensures r.name !in m ==> m'[r.name] == First(r.value)
    ensures r.name in m ==> m'[r.name] == Update(m[r.name], r.value)
    ensures forall n :: n in m && n != r.name ==> m'[n] == m[n]
  {
    if r.name in m then m[r.name := Update(m[r.name], r.value)]
    else m[r.name := First(r.value)]
  }

  /** The records, in order, added to `m`. */
  function AddAll(m: Table, recs: seq<Record>): (r: Table)
    ensures r.Keys == m.Keys + Names(recs)
    decreases |recs|
  {
    if recs == [] then m else AddAll(Add(m, recs[0]), recs[1..])
  }

  /** The table of a record sequence, starting from no stations. */
  function Aggregate(recs: seq<Record>): (t: Table)
    ensures t.Keys == Names(recs)
  {
    AddAll(map[], recs)
  }

  /** Two partial tables merged: a name in one only is copied, a shared one combined. */
  function Merge<K>(a: map<K, Stats>, b: map<K, Stats>): (m: map<K, Stats>)
    ensures m.Keys == a.Keys + b.Keys
    ensures forall n :: n in a && n in b ==> m[n] == Combine(a[n], b[n])
    ensures forall n :: n in a && n !in b ==> m[n] == a[n]
    ensures forall n :: n !in a && n in b ==> m[n] == b[n]
  {
    map n | n in a.Keys + b.Keys ::
      if n in a && n in b then Combine(a[n], b[n])
      else if n in a then a[n]
      else b[n]
  }

  /** Every aggregate in a table satisfies `Valid`. */
  predicate AllValid(m: Table)
  {
    forall n :: n in m ==> Valid(m[n])
  }

  lemma MergeCommutes<K>(a: map<K, Stats>, b: map<K, Stats>)
    ensures Merge(a, b) == Merge(b, a)
  {
    forall n | n in a && n in b ensures Combine(a[n], b[n]) == Combine(b[n], a[n]) {
      CombineCommutes(a[n], b[n]);
    }
  }

  lemma MergeAssociates<K>(a: map<K, Stats>, b: map<K, Stats>, c: map<K, Stats>)
    ensures Merge(Merge(a, b), c) == Merge(a, Merge(b, c))
  {
    var l, r := Merge(Merge(a, b), c), Merge(a, Merge(b, c));
    forall n | n in l ensures n in r && l[n] == r[n] {
      if n in a && n in b && n in c {
        CombineAssociates(a[n], b[n], c[n]);
      }
    }
  }

  lemma MergeEmpty<K>(a: map<K, Stats>)
    ensures Merge(map[], a) == a && Merge(a, map[]) == a
  {
  }

  /** Adding a record is merging the one-record table of it. */
  lemma AddIsMerge(m: Table, r: Record)
    ensures Add(m, r) == Merge(m, map[r.name := First(r.value)])
  {
    if r.name in m {
      UpdateIsCombine(m[r.name], r.value);
    }
  }

  /** Folding records into `m` is merging their table into `m`. */
  lemma {:induction false} AddAllIsMerge(m: Table, recs: seq<Record>)
    ensures AddAll(m, recs) == Merge(m, Aggregate(recs))
    decreases |recs|
  {
    if recs == [] {
      MergeEmpty(m);
    } else {
      var r, rest := recs[0], recs[1..];
      var single := map[r.name := First(r.value)];
      AddAllIsMerge(Add(m, r), rest);
      AddAllIsMerge(single, rest);
      AddIsMerge(m, r);
      assert Add(map[], r) == single;
      MergeAssociates(m, single, Aggregate(rest));
    }
  }

  /** Aggregating a concatenation is merging the aggregates of the parts. */
  lemma {:induction false} AggregateConcat(a: seq<Record>, b: seq<Record>)
    ensures Aggregate(a + b) == Merge(Aggregate(a), Aggregate(b))
  {
    AddAllFold(map[], a, b);
    AddAllIsMerge(Aggregate(a), b);
  }

  lemma {:induction false} AddAllFold(m: Table, a: seq<Record>, b: seq<Record>)
    ensures AddAll(m, a + b) == AddAll(AddAll(m, a), b)
    decreases |a|
  {
    if a == [] {
      assert a + b == b;
    } else {
      assert (a + b)[1..] == a[1..] + b;
      AddAllFold(Add(m, a[0]), a[1..], b);
    }
  }

  // ---------------------------------------------------------------------
  // What the table means, one station at a time.

  /** The readings of station `n`, in file order. */
  function Readings(recs: seq<Record>, n: seq<byte>): seq<int>
  {
    if recs == [] then []
    else (if recs[0].name == n then [recs[0].value] else []) + Readings(recs[1..], n)
  }

  function Sum(vs: seq<int>): int
  {
    if vs == [] then 0 else vs[0] + Sum(vs[1..])
  }

  /** The names occurring in `recs`. */
  function Names(recs: seq<Record>): set<seq<byte>>
  {
    set r | r in recs :: r.name
  }

  /** What the table says about one station `n` of `recs`. */
  predicate Summarises(s: Stats, vs: seq<int>)
  {
    && s.count == |vs| && s.total == Sum(vs)
    && s.minimum in vs && s.maximum in vs
    && (forall i :: 0 <= i < |vs| ==> s.minimum <= vs[i] <= s.maximum)
  }

  /**
   * `m` holds exactly the names that occur in `recs`, and for each name
   * its count is the number of its lines, its total the sum of its
   * readings, and its minimum and maximum the extremes of those readings.
   */
  predicate Describes(m: Table, recs: seq<Record>)
  {
    && m.Keys == Names(recs)
    && AllValid(m)
    && (forall n :: n in m ==> Summarises(m[n], Readings(recs, n)))
  }

  /** The table of the records is exactly what `Describes` asks for. */
  lemma {:induction false} AggregateMeaning(recs: seq<Record>)
    ensures Describes(Aggregate(recs), recs)
    decreases |recs|
  {
    if recs != [] {
      var r, rest := recs[0], recs[1..];
      AggregateMeaning(rest);
      assert recs == [r] + rest;
      AggregateCons(r, rest);
      MeaningStep(r, rest, Aggregate(rest));
    }
  }

  /** The table of one record in front is its one-entry table merged with the table of the rest. */
  lemma AggregateCons(r: Record, rest: seq<Record>)
    ensures Aggregate([r] + rest) == Merge(map[r.name := First(r.value)], Aggregate(rest))
  {
    var single := map[r.name := First(r.value)];
    assert ([r] + rest)[0] == r && ([r] + rest)[1..] == rest;
    assert Add(map[], r) == single;
    AddAllIsMerge(single, rest);
  }

  /** The induction step of AggregateMeaning: one record in front. */
  lemma MeaningStep(r: Record, rest: seq<Record>, t: Table)
    requires Describes(t, rest)
    ensures Describes(Merge(map[r.name := First(r.value)], t), [r] + rest)
  {
    var m := Merge(map[r.name := First(r.value)], t);
    NamesCons(r, rest);
    assert m.Keys == Names([r] + rest);
    forall n | n in m
      ensures Valid(m[n]) && Summarises(m[n], Readings([r] + rest, n))
    {
      ReadingsCons(r, rest, n);
      if n != r.name {
        assert m[n] == t[n];
        assert Readings([r] + rest, n) == Readings(rest, n);
      } else if n in t {
        assert m[n] == Combine(First(r.value), t[n]);
        assert Readings([r] + rest, n) == [r.value] + Readings(rest, n);
        SummarisesCons(t[n], r.value, Readings(rest, n));
      } else {
        NoReadings(rest, n);
        assert m[n] == First(r.value);
        assert Readings([r] + rest, n) == [r.value];
      }
    }
  }

  /** One more reading in front, combined into a summary, is summarised. */
  lemma SummarisesCons(s: Stats, v: int, vs: seq<int>)
    requires Valid(s) && Summarises(s, vs)
    ensures Valid(Combine(First(v), s)) && Summarises(Combine(First(v), s), [v] + vs)
  {
    var c, ws := Combine(First(v), s), [v] + vs;
    assert ws[1..] == vs;
    assert c.minimum in ws && c.maximum in ws;
    forall k | 0 <= k < |ws| ensures c.minimum <= ws[k] <= c.maximum {
      if k > 0 {
        assert ws[k] == vs[k - 1];
      }
    }
  }

  lemma ReadingsCons(r: Record, rest: seq<Record>, n: seq<byte>)
    ensures Readings([r] + rest, n) == (if r.name == n then [r.value] else []) + Readings(rest, n)
  {
    assert ([r] + rest)[0] == r && ([r] + rest)[1..] == rest;
  }

  lemma NamesCons(r: Record, rest: seq<Record>)
    ensures Names([r] + rest) == {r.name} + Names(rest)
  {
    var recs := [r] + rest;
    forall x | x in Names(recs) ensures x in {r.name} + Names(rest) {
      var q :| q in recs && q.name == x;
      if q != r {
        assert q in rest;
      }
    }
    forall x | x in Names(rest) ensures x in Names(recs) {
      var q :| q in rest && q.name == x;
      assert q in recs;
    }
  }

  /** A name that does not occur has no readings. */
  lemma {:induction false} NoReadings(recs: seq<Record>, n: seq<byte>)
    requires n !in Names(recs)
    ensures Readings(recs, n) == []
  {
    if recs != [] {
      assert Names(recs[1..]) <= Names(recs) by {
        forall x | x in Names(recs[1..]) ensures x in Names(recs) {
          var r :| r in recs[1..] && r.name == x;
          assert r in recs;
        }
      }
      NoReadings(recs[1..], n);
    }
  }

  // ---------------------------------------------------------------------
  // Merging many partial tables.

  /** All the tables merged, first to last. */
  function Total<K>(ts: seq<map<K, Stats>>): map<K, Stats>
  {
    if ts == [] then map[] else Merge(ts[0], Total(ts[1..]))
  }

  lemma {:induction false} TotalConcat<K>(a: seq<map<K, Stats>>, b: seq<map<K, Stats>>)
    ensures Total(a + b) == Merge(Total(a), Total(b))
  {
    if a == [] {
      assert a + b == b;
      MergeEmpty(Total(b));
    } else {
      assert (a + b)[1..] == a[1..] + b;
      TotalConcat(a[1..], b);
      MergeAssociates(a[0], Total(a[1..]), Total(b));
    }
  }

  /** The merged result does not depend on the order the tables arrive in. */
  lemma {:induction false} TotalPermutation<K>(a: seq<map<K, Stats>>, b: seq<map<K, Stats>>)
    requires multiset(a) == multiset(b)
    ensures Total(a) == Total(b)
    decreases |a|
  {
    if a == [] {
      assert |b| == |multiset(b)| == 0;
    } else {
      assert a[0] in multiset(b);
      var k :| 0 <= k < |b| && b[k] == a[0];
      RemoveOne(a, b, k);
      TotalPermutation(a[1..], Without(b, k));
      TotalWithout(b, k);
    }
  }

  /** The total is the `k`th table merged with the total of the others. */
  lemma TotalWithout<K>(b: seq<map<K, Stats>>, k: nat)
    requires k < |b|
    ensures Total(b) == Merge(b[k], Total(Without(b, k)))
  {
    var pre, post := b[..k], b[k + 1..];
    assert b[..k + 1] == pre + [b[k]];
    assert b == b[..k + 1] + post;
    TotalSplit(b, pre, b[k], post);
  }

  lemma TotalSplit<K>(b: seq<map<K, Stats>>, pre: seq<map<K, Stats>>, x: map<K, Stats>, post: seq<map<K, Stats>>)
    requires b == pre + [x] + post
    ensures Total(b) == Merge(x, Total(pre + post))
  {
    TotalAround(pre, x, post);
  }

  lemma TotalAround<K>(pre: seq<map<K, Stats>>, x: map<K, Stats>, post: seq<map<K, Stats>>)
    ensures Total(pre + [x] + post) == Merge(x, Total(pre + post))
  {
    TotalConcat(pre + [x], post);
    TotalSnoc(pre, x);
    TotalConcat(pre, post);
    Rotate(Total(pre), x, Total(post));
  }

  lemma Rotate<K>(p: map<K, Stats>, x: map<K, Stats>, q: map<K, Stats>)
    ensures Merge(Merge(p, x), q) == Merge(x, Merge(p, q))
  {
    MergeCommutes(p, x);
    MergeAssociates(x, p, q);
  }

  lemma TotalSnoc<K>(ts: seq<map<K, Stats>>, x: map<K, Stats>)
    ensures Total(ts + [x]) == Merge(Total(ts), x)
  {
    TotalConcat(ts, [x]);
    MergeEmpty(x);
    assert [x][1..] == [];
  }

  lemma MergeSwap<K>(a: map<K, Stats>, x: map<K, Stats>, b: map<K, Stats>)
    ensures Merge(Merge(a, x), b) == Merge(Merge(a, b), x)
  {
    MergeAssociates(a, x, b);
    MergeCommutes(x, b);
    MergeAssociates(a, b, x);
  }

  /** Taking the same element out of two permutations leaves permutations. */
  lemma RemoveOne<T>(a: seq<T>, b: seq<T>, k: nat)
    requires a != [] && k < |b| && b[k] == a[0] && multiset(a) == multiset(b)
    ensures multiset(a[1..]) == multiset(Without(b, k))
  {
    var x, rest := a[0], Without(b, k);
    assert a == [x] + a[1..];
    assert b == b[..k] + [x] + b[k + 1..];
    assert multiset(b) == multiset(b[..k]) + multiset{x} + multiset(b[k + 1..]);
    assert multiset(rest) == multiset(b[..k]) + multiset(b[k + 1..]);
    var A, P := multiset(a[1..]), multiset(rest);
    assert multiset(a) == multiset{x} + A;
    assert multiset(b) == multiset{x} + P;
    forall y ensures A[y] == P[y] {
      assert (multiset{x} + A)[y] == (multiset{x} + P)[y];
    }
  }

  /** `b` without its `k`th element. */
  function Without<T>(b: seq<T>, k: nat): seq<T>
    requires k < |b|
  {
    b[..k] + b[k + 1..]
  }

}
