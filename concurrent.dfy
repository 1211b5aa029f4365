/**
 * The concurrent program's `main` (concurrent/concurrent.go:37-136):
 * plan the chunks, hand every worker its share, merge the tables the
 * workers send back in whatever order they arrive, then list, sort and
 * print the stations.
 */
module Concurrent {
  import opened Bytes
  import opened Planner
  import opened Workers
  import opened Hashing
  import opened Reader
  import opened Collector
  import opened Report
  import opened Results

  /** Approximate chunk size (concurrent/concurrent.go:15). */
  const ChunkSize: nat := 16 * 1024 * 1024

  /** The planned chunks of the file. */
  function Plan(data: seq<byte>): seq<Chunk>
  {
    ChunksOf(Splits(data, ChunkSize))
  }

  /** The chunks worker `i` is handed. */
  function WorkerChunks(data: seq<byte>, i: nat): seq<Chunk>
  {
    var cs := Plan(data);
    OwnedBounds(|cs|, WorkPool, i);
    Gather(cs, OwnedFrom(|cs|, WorkPool, i))
  }

  /** Every worker's loops end. */
  predicate WorkersEnd(data: seq<byte>)
  {
    forall i :: 0 <= i < WorkPool ==> Terminates(data, WorkerChunks(data, i))
  }

  /**
   * On a file that is empty or ends in a newline, every worker's record
   * loops end and no worker panics: each planned chunk lies inside the
   * file and ends on a newline.
   */
  lemma NewlineFileRuns(data: seq<byte>)
    requires data == [] || data[|data| - 1] == NL
    ensures WorkersEnd(data) && AllSucceed(data)
  {
    var cs := Plan(data);
    forall k | 0 <= k < |cs| ensures Readable(data, cs[k]) {
      ChunkReadable(data, k);
    }
    forall i | 0 <= i < WorkPool
      ensures Terminates(data, WorkerChunks(data, i)) && ReadAll(data, WorkerChunks(data, i), map[]).Success?
    {
      OwnedBounds(|cs|, WorkPool, i);
      var ws := WorkerChunks(data, i);
      assert forall k :: 0 <= k < |ws| ==> ws[k] == cs[OwnedFrom(|cs|, WorkPool, i)[k]];
      ReadsAll(data, ws, map[]);
    }
  }

  /** A planned chunk of a newline-terminated file is readable. */
  lemma ChunkReadable(data: seq<byte>, k: nat)
    requires data == [] || data[|data| - 1] == NL
    requires k < |Plan(data)|
    ensures Readable(data, Plan(data)[k])
  {
    var cs := ChunksOf(Splits(data, ChunkSize));
    PlanCoversFile(data, ChunkSize);
    assert 0 <= cs[k].pos && 0 < cs[k].size && cs[k].pos + cs[k].size <= |data|;
    PlanEndsOnNewline(data, ChunkSize, k);
    EndsOnNewline(data, cs[k]);
  }

  /** A chunk inside the file whose last byte is a newline is readable. */
  lemma EndsOnNewline(data: seq<byte>, ch: Chunk)
    requires 0 <= ch.pos && 0 < ch.size && ch.pos + ch.size <= |data|
    requires data[ch.pos + ch.size - 1] == NL
    ensures Readable(data, ch)
  {
    var bytes := data[ch.pos..ch.pos + ch.size];
    assert ReadProblem(data, ch) == "";
    assert ReadBytes(data, ch) == bytes;
    assert bytes[|bytes| - 1] == NL;
    HaltsIff(bytes);
  }

  /** What worker `i` sends: its table, or the panic that stops it. */
  function Worker(data: seq<byte>, i: nat): Result<Dict>
    requires WorkersEnd(data) && i < WorkPool
  {
    ReadAll(data, WorkerChunks(data, i), map[])
  }

  /** No worker panics. */
  predicate AllSucceed(data: seq<byte>)
    requires WorkersEnd(data)
  {
    forall i :: 0 <= i < WorkPool ==> Worker(data, i).Success?
  }

  /** `order` lists every worker exactly once: the order their tables arrive in. */
  predicate ArrivalOrder(order: seq<nat>)
  {
    && (forall j :: 0 <= j < |order| ==> order[j] < WorkPool)
    && multiset(order) == multiset(Range(WorkPool))
  }

  /** The workers' tables, in arrival order. */
  function Arrivals(data: seq<byte>, order: seq<nat>): seq<Dict>
    requires WorkersEnd(data) && AllSucceed(data) && ArrivalOrder(order)
  {
    seq(|order|, j requires 0 <= j < |order| => Worker(data, order[j]).value)
  }

  /** The global table once every worker's table has been merged in. */
  function Global(data: seq<byte>, order: seq<nat>): Dict
    requires WorkersEnd(data) && AllSucceed(data) && ArrivalOrder(order)
  {
    MergeAll(map[], Arrivals(data, order))
  }

  /**
   * `text` is what printing `m` gives: one name per entry, sorted, each
   * with the aggregate of an entry carrying it.
   */
  ghost predicate Prints(text: seq<byte>, m: Dict, mean: (int, int) -> seq<byte>)
  {
    exists names, inverse :: Lists(m, names, inverse) && Known(SortNames(names), inverse)
      && text == Output(SortNames(names), inverse, mean)
  }

  /**
   * The workers (concurrent/concurrent.go:53, 61-72): plan the chunks,
   * hand each worker its share and let it read them. A panic in any
   * worker ends the program.
   */
  method RunWorkers(data: seq<byte>) returns (r: Result<seq<Dict>>)
    requires WorkersEnd(data)
    ensures !AllSucceed(data) <==> r.Failure?
    ensures r.Success? ==> |r.value| == WorkPool
    ensures r.Success? ==> forall i :: 0 <= i < WorkPool ==> r.value[i] == Worker(data, i).value
  {
    var points := ComputeSplits(data, ChunkSize);
    var chks := Chunks(points);
    var tables: seq<Dict> := [];
    for i := 0 to WorkPool
      invariant |tables| == i
      invariant forall k :: 0 <= k < i ==> Worker(data, k).Success? && tables[k] == Worker(data, k).value
    {
      var res := RunWorker(data, chks, i);
      if res.Failure? {
        return Failure(res.reason);
      }
      Collected(data, tables, res.value, i);
      tables := tables + [res.value];
    }
    return Success(tables);
  }

  /** Worker `i`'s table joins the tables of the workers before it. */
  lemma Collected(data: seq<byte>, tables: seq<Dict>, t: Dict, i: nat)
    requires WorkersEnd(data) && i < WorkPool && |tables| == i
    requires forall k :: 0 <= k < i ==> Worker(data, k).Success? && tables[k] == Worker(data, k).value
    requires Worker(data, i) == Success(t)
    ensures forall k :: 0 <= k < i + 1 ==> Worker(data, k).Success? && (tables + [t])[k] == Worker(data, k).value
  {
    forall k | 0 <= k < i + 1 ensures Worker(data, k).Success? && (tables + [t])[k] == Worker(data, k).value {
      if k < i {
        assert (tables + [t])[k] == tables[k];
      }
    }
  }

  /** Worker `i`: gather its chunks and read them (concurrent/concurrent.go:62-71). */
  method RunWorker(data: seq<byte>, chks: seq<Chunk>, i: nat) returns (res: Result<Dict>)
    requires WorkersEnd(data) && i < WorkPool && chks == Plan(data)
    ensures res == Worker(data, i)
  {
    var args := Assign(chks, WorkPool, i);
    assert args == WorkerChunks(data, i);
    res := ReadChunks(data, args);
  }

  /**
   * The listing and printing (concurrent/concurrent.go:110-135): one name
   * per entry, sorted, each printed with its aggregate. When no entry is
   * filed under a foreign hash the text is the report of the table by name.
   */
  method Finish(m: Dict, mean: (int, int) -> seq<byte>) returns (text: seq<byte>)
    ensures Prints(text, m, mean)
    ensures Consistent(m) ==> Reports(text, ByName(m), mean)
  {
    var names, inverse := DictNames(m);
    KnownSorted(names, inverse);
    text := Print(SortNames(names), inverse, mean);
    if Consistent(m) {
      PrintReports(names, inverse, mean);
    }
  }

  /**
   * The program run on the file's bytes, the workers' tables arriving in
   * `order`. Any worker's panic ends the program; otherwise it prints the
   * merged table.
   */
  method Run(data: seq<byte>, order: seq<nat>, mean: (int, int) -> seq<byte>) returns (out: Result<seq<byte>>)
    requires ArrivalOrder(order)
    requires WorkersEnd(data)
    ensures !AllSucceed(data) ==> out.Failure?
    ensures AllSucceed(data) ==> out.Success? && Prints(out.value, Global(data, order), mean)
    ensures AllSucceed(data) && Consistent(Global(data, order)) ==>
      Reports(out.value, ByName(Global(data, order)), mean)
  {
    var r := RunWorkers(data);
    if r.Failure? {
      return Failure(r.reason);
    }
    var tables := r.value;
    var arrivals := seq(|order|, j requires 0 <= j < |order| => tables[order[j]]);
    assert arrivals == Arrivals(data, order);
    var m := Collect(arrivals);
    var text := Finish(m, mean);
    out := Success(text);
  }
}
