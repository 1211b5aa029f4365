/**
 * The two programs agree. On a measurement file whose station names
 * have pairwise different hashes, every worker of the concurrent program
 * finishes, the merged hash-keyed table holds exactly the name-keyed
 * table of all the readings whatever order the workers' tables arrive
 * in, and so both programs print the same report.
 */
module Agreement {
  import opened Bytes
  import opened Tables
  import opened Hashing
  import opened Planner
  import opened Workers
  import opened Reader
  import opened Collector
  import opened Report
  import opened Results
  import opened Encoding
  import opened Sharing
  import opened Concurrent
  import Baseline

  /** The groups of records one after the other. */
  function Flatten(ss: seq<seq<Record>>): seq<Record>
  {
    if ss == [] then [] else ss[0] + Flatten(ss[1..])
  }

  lemma {:induction false} FlattenMember(ss: seq<seq<Record>>, r: Record)
    ensures r in Flatten(ss) <==> exists o :: 0 <= o < |ss| && r in ss[o]
  {
    if ss != [] {
      FlattenMember(ss[1..], r);
      if r in ss[0] {
      } else if r in Flatten(ss[1..]) {
        var o :| 0 <= o < |ss[1..]| && r in ss[1..][o];
        assert r in ss[o + 1];
      } else {
        forall o | 0 <= o < |ss| ensures r !in ss[o] {
          if o > 0 {
            assert ss[o] == ss[1..][o - 1];
          }
        }
      }
    }
  }

  lemma FlattenCons(x: seq<Record>, rest: seq<seq<Record>>)
    ensures Flatten([x] + rest) == x + Flatten(rest)
  {
    assert ([x] + rest)[1..] == rest;
  }

  lemma SplitAt<T>(s: seq<T>, j: nat, k: nat)
    requires j <= k <= |s|
    ensures s[j..] == s[j..k] + s[k..]
  {
  }

  /** Chunk `ch` reads cleanly and holds exactly the lines of `seg`. */
  predicate Holds(data: seq<byte>, ch: Chunk, seg: seq<Record>)
  {
    ReadProblem(data, ch) == "" && ReadBytes(data, ch) == Encode(seg) && WellFormed(seg)
  }

  /** `segs` are the lines of the planned chunks of the file of `rs`, chunk by chunk. */
  predicate Cut(rs: seq<Record>, segs: seq<seq<Record>>)
  {
    var data := Encode(rs);
    var cs := Plan(data);
    && |segs| == |cs| && Flatten(segs) == rs
    && forall o :: 0 <= o < |cs| ==> Holds(data, cs[o], segs[o])
  }

  /** `segs` are the lines of the chunks planned from position `p` on, chunk by chunk. */
  predicate Matches(data: seq<byte>, c: nat, p: nat, segs: seq<seq<Record>>)
    requires c > 0 && p <= |data|
  {
    var cs := ChunksOf([p] + SplitsFrom(data, c, p));
    |segs| == |cs| && forall o :: 0 <= o < |cs| ==> Holds(data, cs[o], segs[o])
  }

  /**
   * The chunks planned from the start of line `j` on hold whole lines:
   * each chunk is some run of lines, and the runs are the lines from `j`
   * on, in order.
   */
  lemma {:induction false} SegmentsFrom(rs: seq<Record>, c: nat, j: nat) returns (segs: seq<seq<Record>>)
    requires WellFormed(rs) && c > 0 && j <= |rs|
    ensures Matches(Encode(rs), c, Offset(rs, j), segs) && Flatten(segs) == rs[j..]
    decreases |rs| - j
  {
    var data, p := Encode(rs), Offset(rs, j);
    Whole(rs);
    if p >= |data| {
      if j < |rs| {
        Piece(rs, j, |rs|);
        assert false;
      }
      segs := [];
      assert [p] + SplitsFrom(data, c, p) == [p];
    } else {
      var k := NextCut(rs, c, j);
      var rest := SegmentsFrom(rs, c, k);
      segs := [rs[j..k]] + rest;
      Piece(rs, j, k);
      WellFormedSlice(rs, j, k);
      SegmentStep(data, c, p, Offset(rs, k), rs[j..k], rest);
      FlattenCons(rs[j..k], rest);
      SplitAt(rs, j, k);
    }
  }

  /** The split point after the start of line `j` is the start of a later line. */
  lemma NextCut(rs: seq<Record>, c: nat, j: nat) returns (k: nat)
    requires WellFormed(rs) && c > 0 && j <= |rs| && Offset(rs, j) < |Encode(rs)|
    ensures j < k <= |rs| && Offset(rs, k) == NextPoint(Encode(rs), c, Offset(rs, j))
  {
    var data, p := Encode(rs), Offset(rs, j);
    var n := NextPoint(data, c, p);
    Whole(rs);
    if n == |data| {
      k := |rs|;
    } else {
      k := NewlineCut(rs, n);
    }
    if k <= j {
      Piece(rs, k, j);
      assert false;
    }
  }

  /** One more chunk, from `p` to the next split point `n`, in front of the chunks from `n` on. */
  lemma SegmentStep(data: seq<byte>, c: nat, p: nat, n: nat, seg: seq<Record>, rest: seq<seq<Record>>)
    requires c > 0 && p < |data| && n == NextPoint(data, c, p)
    requires data[p..n] == Encode(seg) && WellFormed(seg)
    requires Matches(data, c, n, rest)
    ensures Matches(data, c, p, [seg] + rest)
  {
    var ch := Chunk(p, n - p);
    HoldsRange(data, p, n, seg);
    SplitsFromStep(data, c, p);
    var later := [n] + SplitsFrom(data, c, n);
    assert [p] + SplitsFrom(data, c, p) == [p] + later;
    ChunksCons(p, later);
    ConsHolds(data, ch, seg, ChunksOf(later), rest, ChunksOf([p] + SplitsFrom(data, c, p)), [seg] + rest);
  }

  lemma ChunksCons(p: nat, later: seq<nat>)
    requires later != []
    ensures ChunksOf([p] + later) == [Chunk(p, later[0] - p)] + ChunksOf(later)
  {
    assert ([p] + later)[1..] == later;
  }

  /** A non-empty range of the file holding the lines of `seg` is a chunk that holds them. */
  lemma HoldsRange(data: seq<byte>, p: nat, q: nat, seg: seq<Record>)
    requires p < q <= |data| && data[p..q] == Encode(seg) && WellFormed(seg)
    ensures Holds(data, Chunk(p, q - p), seg)
  {
  }

  lemma ConsHolds(data: seq<byte>, ch: Chunk, seg: seq<Record>, cs: seq<Chunk>, rest: seq<seq<Record>>,
                  all: seq<Chunk>, segs: seq<seq<Record>>)
    requires Holds(data, ch, seg) && |rest| == |cs|
    requires forall o :: 0 <= o < |cs| ==> Holds(data, cs[o], rest[o])
    requires all == [ch] + cs && segs == [seg] + rest
    ensures |segs| == |all| && forall o :: 0 <= o < |all| ==> Holds(data, all[o], segs[o])
  {
    forall o | 0 <= o < |all| ensures Holds(data, all[o], segs[o]) {
      if o > 0 {
        assert all[o] == cs[o - 1] && segs[o] == rest[o - 1];
      }
    }
  }

  /** The planned chunks of a well-formed file hold whole lines, all of them, in order. */
  lemma Segments(rs: seq<Record>) returns (segs: seq<seq<Record>>)
    requires WellFormed(rs)
    ensures Cut(rs, segs)
  {
    segs := SegmentsFrom(rs, ChunkSize, 0);
    Whole(rs);
    assert rs[0..] == rs;
  }

  /** Chunks holding runs of lines are read into exactly those lines' readings. */
  lemma {:induction false} ReadSegments(data: seq<byte>, chunks: seq<Chunk>, segs: seq<seq<Record>>, d: Dict)
    requires |chunks| == |segs|
    requires forall o :: 0 <= o < |chunks| ==> Holds(data, chunks[o], segs[o])
    ensures Terminates(data, chunks)
    ensures ReadAll(data, chunks, d) == Success(InsertAll(d, Flatten(segs)))
    decreases |chunks|
  {
    if chunks != [] {
      ReadEncoded(segs[0]);
      InsertLinesAll(d, segs[0]);
      ReadSegments(data, chunks[1..], segs[1..], InsertAll(d, segs[0]));
      InsertAllConcat(d, segs[0], Flatten(segs[1..]));
    }
  }

  // ---------------------------------------------------------------------
  // Each worker's table.

  /** The tables of the chunks, chunk by chunk. */
  function Tabs(segs: seq<seq<Record>>): seq<Table>
  {
    seq(|segs|, o requires 0 <= o < |segs| => Aggregate(segs[o]))
  }

  /** Aggregating runs of records one after the other is merging their tables. */
  lemma {:induction false} AggregateFlatten(segs: seq<seq<Record>>)
    ensures Aggregate(Flatten(segs)) == Total(Tabs(segs))
  {
    if segs != [] {
      AggregateFlatten(segs[1..]);
      AggregateConcat(segs[0], Flatten(segs[1..]));
      assert Tabs(segs)[1..] == Tabs(segs[1..]);
    }
  }

  /** The names in some of the runs are among the names of all of them. */
  lemma PickNames(segs: seq<seq<Record>>, idx: seq<nat>)
    requires forall k :: 0 <= k < |idx| ==> idx[k] < |segs|
    ensures Names(Flatten(Pick(segs, idx))) <= Names(Flatten(segs))
  {
    var picked := Pick(segs, idx);
    forall x | x in Names(Flatten(picked)) ensures x in Names(Flatten(segs)) {
      var r :| r in Flatten(picked) && r.name == x;
      FlattenMember(picked, r);
      var o :| 0 <= o < |picked| && r in picked[o];
      FlattenMember(segs, r);
      assert r in segs[idx[o]];
    }
  }

  /**
   * Worker `i` of the file of `rs` reads its chunks to the end and sends
   * the hash-keyed table of exactly the lines in them.
   */
  lemma WorkerReads(rs: seq<Record>, segs: seq<seq<Record>>, i: nat)
    requires Cut(rs, segs) && i < WorkPool
    ensures var data, cs := Encode(rs), Plan(Encode(rs));
      && OwnedBelow(|cs|, WorkPool, i)
      && Terminates(data, WorkerChunks(data, i))
      && ReadAll(data, WorkerChunks(data, i), map[])
        == Success(InsertAll(map[], Flatten(Pick(segs, OwnedFrom(|cs|, WorkPool, i)))))
  {
    var data, cs := Encode(rs), Plan(Encode(rs));
    OwnedBounds(|cs|, WorkPool, i);
    var idx := OwnedFrom(|cs|, WorkPool, i);
    var chunks := Gather(cs, idx);
    assert chunks == WorkerChunks(data, i);
    ReadSegments(data, chunks, Pick(segs, idx), map[]);
  }

  /**
   * With no hash clash among the names, worker `i`'s table holds, under
   * hashes, the name-keyed table of its chunks' lines.
   */
  lemma WorkerRepresents(rs: seq<Record>, segs: seq<seq<Record>>, i: nat)
    requires Cut(rs, segs) && NoClash(Names(rs)) && i < WorkPool && WorkersEnd(Encode(rs))
    ensures Worker(Encode(rs), i).Success?
    ensures Represents(Worker(Encode(rs), i).value, Share(Tabs(segs), |segs|, i))
    ensures Share(Tabs(segs), |segs|, i).Keys <= Names(rs)
  {
    var cs := Plan(Encode(rs));
    WorkerReads(rs, segs, i);
    var idx := OwnedFrom(|cs|, WorkPool, i);
    var mine := Flatten(Pick(segs, idx));
    PickNames(segs, idx);
    FreshRepresents(mine, Names(rs));
    AggregateFlatten(Pick(segs, idx));
    PickTabs(segs, idx);
  }

  /** Reading records into an empty hash-keyed table gives their table, under hashes. */
  lemma FreshRepresents(recs: seq<Record>, S: set<seq<byte>>)
    requires NoClash(S) && Names(recs) <= S
    ensures Represents(InsertAll(map[], recs), Aggregate(recs))
    ensures Aggregate(recs).Keys <= S
  {
    var empty: Table := map[];
    EmptyRepresents();
    assert empty.Keys + Names(recs) == Names(recs);
    InsertAllRepresents(map[], map[], recs);
    AggregateMeaning(recs);
  }

  lemma PickTabs(segs: seq<seq<Record>>, idx: seq<nat>)
    requires forall k :: 0 <= k < |idx| ==> idx[k] < |segs|
    ensures Tabs(Pick(segs, idx)) == Pick(Tabs(segs), idx)
  {
  }

  // ---------------------------------------------------------------------
  // The merged table and the two reports.

  /**
   * Merging hash-keyed tables into `g` keeps the correspondence, the
   * result standing for the name-keyed tables merged in the same order.
   */
  lemma {:induction false} CollectRepresents(g: Dict, tg: Table, arr: seq<Dict>, ts: seq<Table>, S: set<seq<byte>>)
    requires |arr| == |ts| && Represents(g, tg) && NoClash(S) && tg.Keys <= S
    requires forall k :: 0 <= k < |arr| ==> Represents(arr[k], ts[k]) && ts[k].Keys <= S
    ensures Represents(MergeAll(g, arr), Merge(tg, Total(ts)))
    decreases |arr|
  {
    if arr == [] {
      MergeEmpty(tg);
    } else {
      assert NoClash(tg.Keys + ts[0].Keys);
      MergeRepresents(g, tg, arr[0], ts[0]);
      CollectRepresents(MergeInto(g, arr[0]), Merge(tg, ts[0]), arr[1..], ts[1..], S);
      MergeAssociates(tg, ts[0], Total(ts[1..]));
    }
  }

  /**
   * On a well-formed file whose station names have pairwise different
   * hashes, every worker finishes without a panic and, whatever order
   * their tables arrive in, the merged table holds exactly the
   * name-keyed table of all the readings.
   */
  lemma ConcurrentAggregates(rs: seq<Record>, order: seq<nat>)
    requires WellFormed(rs) && NoClash(Names(rs)) && ArrivalOrder(order)
    ensures WorkersEnd(Encode(rs)) && AllSucceed(Encode(rs))
    ensures Represents(Global(Encode(rs), order), Aggregate(rs))
  {
    var data := Encode(rs);
    var segs := Segments(rs);
    forall i | 0 <= i < WorkPool ensures Terminates(data, WorkerChunks(data, i)) {
      WorkerReads(rs, segs, i);
    }
    var A := Tabs(segs);
    var sh := Shares(A, |A|);
    forall i | 0 <= i < WorkPool
      ensures Worker(data, i).Success? && Represents(Worker(data, i).value, sh[i]) && sh[i].Keys <= Names(rs)
    {
      WorkerRepresents(rs, segs, i);
    }
    var arr := Arrivals(data, order);
    var ts := Pick(sh, order);
    EmptyRepresents();
    CollectRepresents(map[], map[], arr, ts, Names(rs));
    MergeEmpty(Total(ts));
    ArrivalTotal(A, order);
    AggregateFlatten(segs);
  }

  /**
   * Both programs run on the same well-formed file, its names free of
   * hash clashes and the workers' tables arriving in any order: both
   * succeed and print the same text, the report of the readings.
   */
  method Agree(rs: seq<Record>, order: seq<nat>, mean: (int, int) -> seq<byte>)
    returns (concurrent: Result<seq<byte>>, baseline: Result<seq<byte>>)
    requires WellFormed(rs) && NoClash(Names(rs)) && ArrivalOrder(order)
    ensures concurrent.Success? && baseline.Success?
    ensures concurrent.value == baseline.value
    ensures Reports(concurrent.value, Aggregate(rs), mean)
  {
    var data := Encode(rs);
    ConcurrentAggregates(rs, order);
    RepresentsByName(Global(data, order), Aggregate(rs));
    concurrent := Concurrent.Run(data, order, mean);
    ScanEncoded(rs);
    ParseStripped(rs);
    baseline := Baseline.Run(data, mean);
    ReportsUnique(concurrent.value, baseline.value, Aggregate(rs), mean);
  }
}
