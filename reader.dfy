/**
 * A worker's pass over its chunks (concurrent/concurrent.go:204-281):
 * read each chunk into a shared buffer, then consume the buffer one
 * record at a time, inserting every reading into the worker's table
 * under the hash of the bytes before the `;`.
 */
module Reader {
  import opened Bytes
  import opened Values
  import opened Stats
  import opened Hashing
  import opened Planner
  import opened Results

  // ---------------------------------------------------------------------
  // The record loop, as functions.

  /** What one pass of the record loop inserts: a hash, a name and a value. */
  datatype Line = Line(hash: nat, name: seq<byte>, value: int)

  /** One pass of the record loop: what it inserts and the buffer it leaves. */
  datatype Pass = Pass(line: Line, next: seq<byte>)

  /**
   * The buffer after the name scan: past the first `;`, or all of it when
   * there is none (the scan then leaves the buffer as it is).
   */
  function AfterName(tail: seq<byte>): (rest: seq<byte>)
    ensures |rest| <= |tail| && rest == tail[|tail| - |rest|..]
    ensures |rest| < |tail| <==> SEMI in tail
  {
    var semi := Find(tail, SEMI);
    if semi < |tail| then tail[semi + 1..] else tail
  }

  /** The bytes the name scan hashes: up to the first `;`, or all of them. */
  function Hashed(tail: seq<byte>): seq<byte>
  {
    var semi := Find(tail, SEMI);
    if semi < |tail| then tail[..semi] else tail
  }

  /** The name the scan splits off: the bytes before the first `;`, empty without one. */
  function NameOf(tail: seq<byte>): seq<byte>
  {
    var semi := Find(tail, SEMI);
    if semi < |tail| then tail[..semi] else []
  }

  /**
   * One pass over a non-empty buffer. The name is the text before the
   * first `;` and is hashed; without a `;` the name is empty and the hash
   * covers the whole buffer. The value is parsed from what follows, up
   * to the first newline, which is consumed; without a newline the value
   * covers the rest and nothing more is consumed.
   */
  function Step(tail: seq<byte>): (p: Pass)
    requires tail != []
    ensures |p.next| <= |tail| && p.next == tail[|tail| - |p.next|..]
    ensures |p.next| < |tail| <==> SEMI in tail || NL in tail
  {
    var rest := AfterName(tail);
    var nl := Find(rest, NL);
    var next := if nl < |rest| then rest[nl + 1..] else rest;
    NextShape(tail, rest, next);
    Pass(Line(Hash(Hashed(tail)), NameOf(tail), Value(rest[..nl])), next)
  }

  /** What a pass leaves is a suffix of the buffer, shorter exactly when there is a `;` or a newline. */
  lemma NextShape(tail: seq<byte>, rest: seq<byte>, next: seq<byte>)
    requires rest == AfterName(tail)
    requires next == if Find(rest, NL) < |rest| then rest[Find(rest, NL) + 1..] else rest
    ensures |next| <= |tail| && next == tail[|tail| - |next|..]
    ensures |next| < |tail| <==> SEMI in tail || NL in tail
  {
    if SEMI !in tail && NL in tail {
      assert rest == tail;
      assert NL in rest;
    }
  }

  /** The record loop over `tail` ends: every pass consumes something. */
  predicate Halts(tail: seq<byte>)
    decreases |tail|
  {
    tail == [] || (|Step(tail).next| < |tail| && Halts(Step(tail).next))
  }

  /** What the passes over a halting buffer insert, in order. */
  function Lines(tail: seq<byte>): (ls: seq<Line>)
    requires Halts(tail)
    ensures |ls| <= |tail|
    ensures tail != [] ==> ls != []
    decreases |tail|
  {
    if tail == [] then [] else [Step(tail).line] + Lines(Step(tail).next)
  }

  /** The lines inserted, in order, into a worker's table. */
  function InsertLines(d: Dict, ls: seq<Line>): (r: Dict)
    ensures r.Keys == d.Keys + (set l | l in ls :: l.hash)
    ensures forall h :: h in d ==> r[h].name == d[h].name
    decreases |ls|
  {
    if ls == [] then d else InsertLines(Insert(d, ls[0].hash, ls[0].name, ls[0].value), ls[1..])
  }

  /** The last byte of a non-empty sequence. */
  function Last(s: seq<byte>): byte
    requires s != []
  {
    s[|s| - 1]
  }

  /**
   * The record loop ends exactly on buffers that are empty or end in a
   * newline or a `;`; a buffer whose last line lacks its newline (and
   * does not end in `;`) makes the loop go round forever.
   */
  lemma {:induction false} HaltsIff(tail: seq<byte>)
    ensures Halts(tail) <==> tail == [] || Last(tail) == NL || Last(tail) == SEMI
    decreases |tail|
  {
    if tail != [] {
      var next := Step(tail).next;
      if Last(tail) == NL || Last(tail) == SEMI {
        assert SEMI in tail || NL in tail by {
          assert tail[|tail| - 1] in tail;
        }
        HaltsIff(next);
        if next != [] {
          assert Last(next) == Last(tail);
        }
      } else if |next| < |tail| {
        HaltsIff(next);
        NextNotEmpty(tail);
        assert Last(next) == Last(tail);
      }
    }
  }

  /** A pass leaves something behind when the buffer ends in neither a newline nor a `;`. */
  lemma NextNotEmpty(tail: seq<byte>)
    requires tail != [] && Last(tail) != NL && Last(tail) != SEMI
    ensures Step(tail).next != []
  {
    var semi := Find(tail, SEMI);
    var rest := AfterName(tail);
    var nl := Find(rest, NL);
    if semi < |tail| {
      assert semi < |tail| - 1;
      assert rest != [] && Last(rest) == Last(tail);
    }
    if nl < |rest| {
      assert nl < |rest| - 1;
    }
  }

  /** A line `name;value\n` whose name has no `;` inserts that name's reading under its hash. */
  lemma StepRecord(name: seq<byte>, text: seq<byte>, more: seq<byte>)
    requires SEMI !in name && NL !in text
    ensures Step(name + [SEMI] + text + [NL] + more)
      == Pass(Line(Hash(name), name, Value(text)), more)
  {
    var tail := name + [SEMI] + text + [NL] + more;
    var rest := text + [NL] + more;
    assert tail == name + [SEMI] + rest;
    SplitName(name, rest);
    SplitValue(text, more);
  }

  /** The name scan stops at the first `;`, after a name without one. */
  lemma SplitName(name: seq<byte>, rest: seq<byte>)
    requires SEMI !in name
    ensures AfterName(name + [SEMI] + rest) == rest
    ensures Hashed(name + [SEMI] + rest) == name && NameOf(name + [SEMI] + rest) == name
  {
    var tail := name + [SEMI] + rest;
    FindAt(tail, SEMI, |name|);
    assert tail[..|name|] == name;
    assert tail[|name| + 1..] == rest;
  }

  /** The value runs to the first newline, after a text without one. */
  lemma SplitValue(text: seq<byte>, more: seq<byte>)
    requires NL !in text
    ensures Find(text + [NL] + more, NL) == |text|
    ensures (text + [NL] + more)[..|text|] == text
    ensures (text + [NL] + more)[|text| + 1..] == more
  {
    FindAt(text + [NL] + more, NL, |text|);
  }

  // ---------------------------------------------------------------------
  // The loops.

  /**
   * The name scan (concurrent/concurrent.go:233-241): hash byte by byte
   * until the first `;`, which splits off the name and is consumed.
   */
  method ScanName(tail: seq<byte>) returns (name: seq<byte>, hash: bv64, rest: seq<byte>)
    requires tail != []
    ensures hash == HashBits(Hashed(tail))
    ensures name == NameOf(tail)
    ensures rest == AfterName(tail)
  {
    name := [];
    hash := 0;
    rest := tail;
    var i := 0;
    while i < |tail|
      invariant 0 <= i <= |tail|
      invariant hash == HashBits(tail[..i])
      invariant i <= Find(tail, SEMI)
    {
      if tail[i] == SEMI {
        assert Find(tail, SEMI) == i;
        name := tail[..i];
        rest := tail[i + 1..];
        return;
      }
      HashPrefix(tail, i);
      hash := Mix(hash, tail[i]);
      i := i + 1;
    }
    assert tail[..i] == tail;
    assert Find(tail, SEMI) == |tail|;
  }

  /**
   * The value scan (concurrent/concurrent.go:243-265): `.` is skipped,
   * `-` makes the value negative, a newline ends the scan and is
   * consumed, any other byte is a digit.
   */
  method ScanValue(rest: seq<byte>) returns (val: int, next: seq<byte>)
    ensures val == Value(rest[..Find(rest, NL)])
    ensures next == if Find(rest, NL) < |rest| then rest[Find(rest, NL) + 1..] else rest
  {
    val := 0;
    var neg := 1;
    next := rest;
    var i := 0;
    while i < |rest|
      invariant 0 <= i <= |rest|
      invariant NL !in rest[..i]
      invariant val == Magnitude(rest[..i])
      invariant neg == (if MINUS in rest[..i] then -1 else 1)
    {
      var c := rest[i];
      if c == NL {
        FindAt(rest, NL, i);
        next := rest[i + 1..];
        break;
      }
      assert rest[..i + 1][..i] == rest[..i];
      if c == DOT {
      } else if c == MINUS {
        neg := -1;
      } else {
        val := val * 10;
        val := val + DigitOf(c);
      }
      i := i + 1;
    }
    if i == |rest| {
      assert rest[..i] == rest;
      FindNone(rest, NL);
    }
    val := val * neg;
  }

  /**
   * The record loop over one chunk's bytes (concurrent/concurrent.go:226-278):
   * one pass per record, each reading inserted under its hash.
   */
  method ParseInto(m: Dict, buf: seq<byte>) returns (m': Dict)
    requires Halts(buf)
    ensures m' == InsertLines(m, Lines(buf))
  {
    m' := m;
    var tail := buf;
    while |tail| > 0
      invariant Halts(tail)
      invariant InsertLines(m', Lines(tail)) == InsertLines(m, Lines(buf))
      decreases |tail|
    {
      var name, hash, rest := ScanName(tail);
      var val, next := ScanValue(rest);
      var line := Line(hash as int, name, val);
      assert line == Step(tail).line && next == Step(tail).next;
      m' := Insert(m', line.hash, line.name, line.value);
      tail := next;
    }
  }

  // ---------------------------------------------------------------------
  // Reading the chunks.

  /** How a positional read of the file ended. */
  datatype ReadEnd = Complete | EndOfFile | NegativeOffset

  /**
   * `os.File.ReadAt` into `buffer[..size]` from offset `pos`: a negative
   * offset is an error and reads nothing; otherwise it copies the bytes
   * that exist, and reports end-of-file when it could not fill the slice.
   */
  method ReadAt(data: seq<byte>, buffer: array<byte>, size: nat, pos: int) returns (n: nat, end: ReadEnd)
    requires size <= buffer.Length
    modifies buffer
    ensures n <= size
    ensures pos < 0 ==> n == 0 && end == NegativeOffset
    ensures pos >= 0 ==> n == (if pos + size <= |data| then size else if pos <= |data| then |data| - pos else 0)
    ensures pos >= 0 ==> end == (if n < size then EndOfFile else Complete)
    ensures n > 0 ==> pos + n <= |data| && buffer[..n] == data[pos..pos + n]
    ensures buffer[n..] == old(buffer[n..])
  {
    if pos < 0 {
      return 0, NegativeOffset;
    }
    n := if pos + size <= |data| then size else if pos <= |data| then |data| - pos else 0;
    forall k | 0 <= k < n {
      buffer[k] := data[pos + k];
    }
    end := if n < size then EndOfFile else Complete;
  }

  /** The largest chunk size, and 0 for no chunks (concurrent/concurrent.go:208-213). */
  method MaxSize(chunks: seq<Chunk>) returns (m: nat)
    ensures forall i :: 0 <= i < |chunks| ==> chunks[i].size <= m
    ensures m == 0 || exists i :: 0 <= i < |chunks| && chunks[i].size == m
  {
    m := 0;
    for i := 0 to |chunks|
      invariant forall j :: 0 <= j < i ==> chunks[j].size <= m
      invariant m == 0 || exists j :: 0 <= j < i && chunks[j].size == m
    {
      if chunks[i].size > m {
        m := chunks[i].size;
      }
    }
  }

  /**
   * Why reading chunk `ch` panics, if it does: a negative size fails the
   * slice `buffer[:size]`, a negative offset fails the read, and a read
   * that comes back short fails the size check.
   */
  function ReadProblem(data: seq<byte>, ch: Chunk): (p: string)
    ensures p == "" <==> 0 <= ch.size && 0 <= ch.pos && (ch.size == 0 || ch.pos + ch.size <= |data|)
  {
    if ch.size < 0 then "slice bounds out of range"
    else if ch.pos < 0 then "negative offset"
    else if ch.size > 0 && ch.pos + ch.size > |data| then "couldn't read expected chunk size"
    else ""
  }

  /** The bytes a readable chunk fills the buffer with. */
  function ReadBytes(data: seq<byte>, ch: Chunk): seq<byte>
    requires ReadProblem(data, ch) == ""
  {
    if ch.size == 0 then [] else data[ch.pos..ch.pos + ch.size]
  }

  /**
   * The worker ends: it stops at the first chunk that cannot be read, and
   * the record loop ends on every chunk before that one.
   */
  predicate Terminates(data: seq<byte>, chunks: seq<Chunk>)
    decreases |chunks|
  {
    chunks == [] || ReadProblem(data, chunks[0]) != ""
    || (Halts(ReadBytes(data, chunks[0])) && Terminates(data, chunks[1..]))
  }

  /** A worker's table after its chunks, in order, starting from `d`; or the panic that stops it. */
  function ReadAll(data: seq<byte>, chunks: seq<Chunk>, d: Dict): Result<Dict>
    requires Terminates(data, chunks)
    decreases |chunks|
  {
    if chunks == [] then Success(d)
    else if ReadProblem(data, chunks[0]) != "" then Failure(ReadProblem(data, chunks[0]))
    else ReadAll(data, chunks[1..], InsertLines(d, Lines(ReadBytes(data, chunks[0]))))
  }

  /** The chunk reads without a panic, and the record loop ends on its bytes. */
  predicate Readable(data: seq<byte>, ch: Chunk)
  {
    ReadProblem(data, ch) == "" && Halts(ReadBytes(data, ch))
  }

  /** A worker whose chunks are all readable ends, and sends a table. */
  lemma {:induction false} ReadsAll(data: seq<byte>, chunks: seq<Chunk>, d: Dict)
    requires forall k :: 0 <= k < |chunks| ==> Readable(data, chunks[k])
    ensures Terminates(data, chunks) && ReadAll(data, chunks, d).Success?
    decreases |chunks|
  {
    if chunks != [] {
      ReadsAll(data, chunks[1..], InsertLines(d, Lines(ReadBytes(data, chunks[0]))));
    }
  }

  /**
   * One chunk of `readChunks` (concurrent/concurrent.go:215-279): read it
   * into the front of the buffer, panic on a short read, then run the
   * record loop over the bytes read.
   */
  method ReadChunk(data: seq<byte>, buffer: array<byte>, chunk: Chunk, m: Dict) returns (r: Result<Dict>)
    requires chunk.size <= buffer.Length
    requires ReadProblem(data, chunk) == "" ==> Halts(ReadBytes(data, chunk))
    modifies buffer
    ensures ReadProblem(data, chunk) != "" ==> r == Failure(ReadProblem(data, chunk))
    ensures ReadProblem(data, chunk) == "" ==> r == Success(InsertLines(m, Lines(ReadBytes(data, chunk))))
    ensures ReadProblem(data, chunk) == "" ==> buffer[..chunk.size] == ReadBytes(data, chunk)
  {
    if chunk.size < 0 {
      return Failure("slice bounds out of range");
    }
    var n, end := ReadAt(data, buffer, chunk.size, chunk.pos);
    ReadOutcome(data, chunk, n, end, buffer[..n]);
    if end == NegativeOffset {
      return Failure("negative offset");
    }
    if n != chunk.size {
      return Failure("couldn't read expected chunk size");
    }
    var tail := buffer[..chunk.size];
    var m' := ParseInto(m, tail);
    return Success(m');
  }

  /** Which panic, if any, follows a positional read of `chunk` that returned `n` bytes `got`. */
  lemma ReadOutcome(data: seq<byte>, chunk: Chunk, n: nat, end: ReadEnd, got: seq<byte>)
    requires chunk.size >= 0 && n <= chunk.size && |got| == n
    requires chunk.pos < 0 ==> n == 0 && end == NegativeOffset
    requires chunk.pos >= 0 ==> n == (if chunk.pos + chunk.size <= |data| then chunk.size
      else if chunk.pos <= |data| then |data| - chunk.pos else 0)
    requires chunk.pos >= 0 ==> end == (if n < chunk.size then EndOfFile else Complete)
    requires n > 0 ==> chunk.pos + n <= |data| && got == data[chunk.pos..chunk.pos + n]
    ensures end == NegativeOffset ==> ReadProblem(data, chunk) == "negative offset"
    ensures end != NegativeOffset && n != chunk.size ==> ReadProblem(data, chunk) == "couldn't read expected chunk size"
    ensures end != NegativeOffset && n == chunk.size ==> ReadProblem(data, chunk) == "" && got == ReadBytes(data, chunk)
  {
  }

  /**
   * `readChunks` (concurrent/concurrent.go:204-281): size one buffer for
   * the largest chunk, then read and parse each chunk in turn into one
   * table.
   */
  method ReadChunks(data: seq<byte>, chunks: seq<Chunk>) returns (r: Result<Dict>)
    requires Terminates(data, chunks)
    ensures r == ReadAll(data, chunks, map[])
  {
    var m: Dict := map[];
    var maxChunkSize := MaxSize(chunks);
    var buffer := new byte[maxChunkSize];
    for i := 0 to |chunks|
      invariant Terminates(data, chunks[i..])
      invariant ReadAll(data, chunks[i..], m) == ReadAll(data, chunks, map[])
    {
      assert chunks[i..][1..] == chunks[i + 1..];
      r := ReadChunk(data, buffer, chunks[i], m);
      if r.Failure? {
        return;
      }
      m := r.value;
    }
    r := Success(m);
  }
}
