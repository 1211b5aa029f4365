/**
 * The split planner and the chunk list (concurrent/concurrent.go:138-202).
 * The file is its bytes; seeking and reading one byte at a time become
 * indexing into them, and reading at or past the end is end-of-file.
 */
module Planner {
  import opened Bytes

  /** A byte range of the file, `[pos, pos + size)` (concurrent/concurrent.go:31-35). */
  datatype Chunk = Chunk(pos: int, size: int)

  /**
   * The split point after `p`: jump `c` bytes ahead, then just past the
   * first newline found there; the file size when the jump or the scan
   * reaches end-of-file.
   */
  function NextPoint(data: seq<byte>, c: nat, p: nat): (r: nat)
    requires c > 0
    ensures p < r <= |data| || (p >= |data| && r == |data|)
    ensures r < |data| ==> p + c < r && data[r - 1] == NL && NoNewline(data, p + c, r - 1)
    ensures p + c < |data| && r == |data| ==> NoNewline(data, p + c, |data| - 1)
  {
    var q := p + c;
    if q >= |data| then |data|
    else
      var k := q + Find(data[q..], NL);
      if k < |data| then k + 1 else |data|
  }

  /** The split points after `p`, up to and including the file size. */
  function SplitsFrom(data: seq<byte>, c: nat, p: nat): seq<nat>
    requires c > 0 && p <= |data|
    decreases |data| - p
  {
    if p >= |data| then []
    else
      var n := NextPoint(data, c, p);
      [n] + SplitsFrom(data, c, n)
  }

  /** All split points: 0 first, then each point's successor until the file size. */
  function Splits(data: seq<byte>, c: nat): seq<nat>
    requires c > 0
  {
    [0] + SplitsFrom(data, c, 0)
  }

  /**
   * The planner's loops: seek `c` ahead of the current point, read byte by
   * byte until a newline or end-of-file, record the new point.
   */
  method ComputeSplits(data: seq<byte>, c: nat) returns (result: seq<nat>)
    requires c > 0
    ensures result == Splits(data, c)
  {
    var curr := 0;
    result := [curr];
    while curr < |data|
      invariant curr <= |data|
      invariant result + SplitsFrom(data, c, curr) == Splits(data, c)
      decreases |data| - curr
    {
      ghost var p := curr;
      var pos := curr + c;   // f.Seek(ChunkSize, io.SeekCurrent)
      curr := pos;
      var extra := 0;
      while true
        invariant curr == p + c && pos == curr + extra
        invariant pos <= |data| || pos == p + c
        invariant NoNewline(data, p + c, pos)
        decreases |data| - pos
      {
        if pos < |data| {         // f.Read returned one byte
          var b := data[pos];
          NoNewlineExtend(data, p + c, pos);
          pos := pos + 1;
          extra := extra + 1;
          if b == NL {
            NextPointAtNewline(data, c, p, pos - 1);
            break;
          }
        } else {                  // io.EOF
          NextPointAtEnd(data, c, p);
          curr := |data|;
          extra := 0;
          break;
        }
      }
      curr := curr + extra;
      assert curr == NextPoint(data, c, p);
      SplitsFromStep(data, c, p);
      assert result + SplitsFrom(data, c, p) == (result + [curr]) + SplitsFrom(data, c, curr);
      result := result + [curr];
    }
  }

  lemma SplitsFromStep(data: seq<byte>, c: nat, p: nat)
    requires c > 0 && p < |data|
    ensures SplitsFrom(data, c, p) == [NextPoint(data, c, p)] + SplitsFrom(data, c, NextPoint(data, c, p))
  {
  }

  /** `r` is just past the first newline at or after `from`, inside the file. */
  predicate FirstNewlineAfter(data: seq<byte>, from: nat, r: nat)
  {
    from < r < |data| && data[r - 1] == NL && NoNewline(data, from, r - 1)
  }

  /** No byte of `data` in `[from, to)` is a newline. */
  predicate NoNewline(data: seq<byte>, from: nat, to: nat)
  {
    forall k :: from <= k < to && k < |data| ==> data[k] != NL
  }

  lemma NoNewlineExtend(data: seq<byte>, from: nat, to: nat)
    requires NoNewline(data, from, to) && to < |data|
    ensures data[to] != NL ==> NoNewline(data, from, to + 1)
  {
  }

  /** The scan stops at the first newline `k` at or after `p + c`. */
  lemma NextPointAtNewline(data: seq<byte>, c: nat, p: nat, k: nat)
    requires c > 0 && p + c <= k < |data| && data[k] == NL
    requires NoNewline(data, p + c, k)
    ensures NextPoint(data, c, p) == k + 1
  {
    var s := data[p + c..];
    assert s[k - (p + c)] == NL;
    FindAt(s, NL, k - (p + c));
  }

  /** Without a newline at or after `p + c`, the point is the file size. */
  lemma NextPointAtEnd(data: seq<byte>, c: nat, p: nat)
    requires c > 0
    requires NoNewline(data, p + c, |data|)
    ensures NextPoint(data, c, p) == |data|
  {
    if p + c < |data| {
      FindNone(data[p + c..], NL);
    }
  }

  /**
   * The points after `p` rise strictly, end at the file size, and every
   * one before the last follows a newline that is the first at or after
   * its predecessor plus `c`.
   */
  lemma {:induction false} SplitsFromShape(data: seq<byte>, c: nat, p: nat)
    requires c > 0 && p < |data|
    ensures var ps := SplitsFrom(data, c, p);
      && |ps| >= 1 && ps[0] == NextPoint(data, c, p) && ps[|ps| - 1] == |data|
      && (forall i :: 0 <= i < |ps| - 1 ==> ps[i] < ps[i + 1] && ps[i + 1] == NextPoint(data, c, ps[i]))
      && (forall i :: 0 <= i < |ps| ==> p < ps[i] <= |data|)
    decreases |data| - p
  {
    var n := NextPoint(data, c, p);
    var ps := SplitsFrom(data, c, p);
    if n < |data| {
      SplitsFromShape(data, c, n);
      var rest := SplitsFrom(data, c, n);
      assert ps == [n] + rest;
      forall i | 0 <= i < |ps| - 1 ensures ps[i] < ps[i + 1] && ps[i + 1] == NextPoint(data, c, ps[i]) {
        if i > 0 {
          assert ps[i] == rest[i - 1] && ps[i + 1] == rest[i];
        }
      }
    } else {
      assert ps == [n];
    }
  }

  /**
   * The planner's promise: the points start at 0, end at the file size,
   * rise strictly, and each point after the first is `NextPoint` of the
   * one before.
   */
  lemma SplitsShape(data: seq<byte>, c: nat)
    requires c > 0
    ensures var ps := Splits(data, c);
      && ps[0] == 0 && ps[|ps| - 1] == |data|
      && (forall i :: 0 <= i < |ps| - 1 ==> ps[i] < ps[i + 1] && ps[i + 1] == NextPoint(data, c, ps[i]))
  {
    var ps := Splits(data, c);
    if |data| > 0 {
      var rest := SplitsFrom(data, c, 0);
      SplitsFromShape(data, c, 0);
      assert ps == [0] + rest;
      forall i | 0 <= i < |ps| - 1 ensures ps[i] < ps[i + 1] && ps[i + 1] == NextPoint(data, c, ps[i]) {
        if i > 0 {
          assert ps[i] == rest[i - 1] && ps[i + 1] == rest[i];
        }
      }
    }
  }

  /**
   * Every point strictly between the first and the last sits just past a
   * newline, the first newline at or after the previous point plus `c`.
   */
  lemma SplitsAfterNewline(data: seq<byte>, c: nat)
    requires c > 0
    ensures var ps := Splits(data, c);
      forall i :: 0 < i < |ps| - 1 ==> FirstNewlineAfter(data, ps[i - 1] + c, ps[i])
  {
    var ps := Splits(data, c);
    SplitsShape(data, c);
    forall i | 0 < i < |ps| - 1
      ensures FirstNewlineAfter(data, ps[i - 1] + c, ps[i])
    {
      assert ps[i] < ps[i + 1];
      Rising(ps, i + 1, |ps| - 1);
      assert ps[i] == NextPoint(data, c, ps[i - 1]);
    }
  }

  /** A file no longer than `c` is one chunk, or none when it is empty. */
  lemma SmallFile(data: seq<byte>, c: nat)
    requires c > 0 && |data| <= c
    ensures Splits(data, c) == if |data| == 0 then [0] else [0, |data|]
  {
    if |data| > 0 {
      assert NextPoint(data, c, 0) == |data|;
      assert SplitsFrom(data, c, 0) == [|data|] + SplitsFrom(data, c, |data|);
    }
  }

  // ---------------------------------------------------------------------
  // From points to chunks.

  /**
   * Consecutive points as `(pos, size)` pairs: `n` points give `n - 1`
   * chunks, the `i`th from `points[i]` up to `points[i + 1]`.
   */
  function ChunksOf(points: seq<nat>): (cs: seq<Chunk>)
    requires |points| >= 1
    ensures |cs| == |points| - 1
    decreases |points|
  {
    if |points| == 1 then []
    else [Chunk(points[0], points[1] as int - points[0])] + ChunksOf(points[1..])
  }

  /** The `i`th chunk runs from `points[i]` up to `points[i + 1]`. */
  lemma {:induction false} ChunksOfAt(points: seq<nat>, i: nat)
    requires i < |points| - 1
    ensures ChunksOf(points)[i].pos == points[i]
    ensures ChunksOf(points)[i].pos + ChunksOf(points)[i].size == points[i + 1]
  {
    if i > 0 {
      ChunksOfAt(points[1..], i - 1);
    }
  }

  /** The counted loop of `chunks` (concurrent/concurrent.go:193-201). */
  method Chunks(points: seq<nat>) returns (result: seq<Chunk>)
    requires |points| >= 1
    ensures result == ChunksOf(points)
  {
    result := [];
    var i := 0;
    while i < |points| - 1
      invariant 0 <= i <= |points| - 1
      invariant result + ChunksOf(points[i..]) == ChunksOf(points)
    {
      var chunk := Chunk(points[i], points[i + 1] as int - points[i]);
      ChunksFrom(points, i);
      assert (result + [chunk]) + ChunksOf(points[i + 1..]) == result + ChunksOf(points[i..]);
      result := result + [chunk];
      i := i + 1;
    }
  }

  /** The chunks from point `i` on: the one starting there, then the rest. */
  lemma ChunksFrom(points: seq<nat>, i: nat)
    requires i < |points| - 1
    ensures ChunksOf(points[i..]) == [Chunk(points[i], points[i + 1] as int - points[i])] + ChunksOf(points[i + 1..])
  {
    assert points[i..][1..] == points[i + 1..];
  }

  /** The bytes a chunk covers. */
  function ChunkBytes(data: seq<byte>, ch: Chunk): seq<byte>
    requires 0 <= ch.pos <= ch.pos + ch.size <= |data|
  {
    data[ch.pos..ch.pos + ch.size]
  }

  /** Every chunk lies within the file. */
  predicate InFile(data: seq<byte>, cs: seq<Chunk>)
  {
    forall i :: 0 <= i < |cs| ==> 0 <= cs[i].pos && 0 <= cs[i].size && cs[i].pos + cs[i].size <= |data|
  }

  /** All chunks' bytes, in chunk order. */
  function Concat(data: seq<byte>, cs: seq<Chunk>): seq<byte>
    requires InFile(data, cs)
  {
    if cs == [] then [] else ChunkBytes(data, cs[0]) + Concat(data, cs[1..])
  }

  /** Strictly rising points. */
  predicate Increasing(points: seq<nat>)
  {
    forall i :: 0 <= i < |points| - 1 ==> points[i] < points[i + 1]
  }

  /**
   * Chunks of strictly rising points are non-empty, contiguous, and lie
   * within the file when the last point does.
   */
  lemma ChunksShape(data: seq<byte>, points: seq<nat>)
    requires |points| >= 1 && points[|points| - 1] <= |data| && Increasing(points)
    ensures var cs := ChunksOf(points);
      && |cs| == |points| - 1
      && (forall i :: 0 <= i < |cs| ==> cs[i].pos == points[i] && cs[i].size > 0)
      && (forall i :: 0 <= i < |cs| - 1 ==> cs[i].pos + cs[i].size == cs[i + 1].pos)
      && InFile(data, cs)
  {
    var cs := ChunksOf(points);
    forall i | 0 <= i < |cs|
      ensures cs[i].pos == points[i] && cs[i].pos + cs[i].size == points[i + 1]
      ensures cs[i].size > 0 && cs[i].pos + cs[i].size <= |data|
    {
      ChunksOfAt(points, i);
      Rising(points, i + 1, |points| - 1);
    }
  }

  /** Together the chunks hold exactly the bytes from the first point to the last. */
  lemma {:induction false} ChunksTile(data: seq<byte>, points: seq<nat>)
    requires |points| >= 1 && points[|points| - 1] <= |data| && Increasing(points)
    ensures InFile(data, ChunksOf(points)) && points[0] <= points[|points| - 1]
    ensures Concat(data, ChunksOf(points)) == data[points[0]..points[|points| - 1]]
  {
    ChunksShape(data, points);
    Rising(points, 0, |points| - 1);
    if |points| > 1 {
      var rest := points[1..];
      assert Increasing(rest) by {
        forall i | 0 <= i < |rest| - 1 ensures rest[i] < rest[i + 1] {
          assert rest[i] == points[i + 1] && rest[i + 1] == points[i + 2];
        }
      }
      ChunksTile(data, rest);
      Rising(points, 1, |points| - 1);
      var cs := ChunksOf(points);
      assert cs[1..] == ChunksOf(rest);
      assert ChunkBytes(data, cs[0]) == data[points[0]..points[1]];
      SliceSplit(data, points[0], points[1], points[|points| - 1]);
    }
  }

  lemma SliceSplit(data: seq<byte>, a: nat, b: nat, c: nat)
    requires a <= b <= c <= |data|
    ensures data[a..c] == data[a..b] + data[b..c]
  {
  }

  lemma {:induction false} Rising(points: seq<nat>, i: nat, j: nat)
    requires i <= j < |points|
    requires Increasing(points)
    ensures points[i] <= points[j]
    decreases j - i
  {
    if i < j {
      Rising(points, i + 1, j);
    }
  }

  /** The planned chunks are non-empty and hold every byte of the file exactly once, in order. */
  lemma PlanCoversFile(data: seq<byte>, c: nat)
    requires c > 0
    ensures var cs := ChunksOf(Splits(data, c));
      && InFile(data, cs) && Concat(data, cs) == data
      && (forall i :: 0 <= i < |cs| ==> cs[i].size > 0)
  {
    var ps := Splits(data, c);
    SplitsShape(data, c);
    ChunksShape(data, ps);
    ChunksTile(data, ps);
  }

  /** When the file ends with a newline, every planned chunk ends on one. */
  lemma PlanEndsOnNewline(data: seq<byte>, c: nat, i: nat)
    requires c > 0 && |data| > 0 && data[|data| - 1] == NL
    requires i < |ChunksOf(Splits(data, c))|
    ensures var ch := ChunksOf(Splits(data, c))[i];
      0 < ch.pos + ch.size <= |data| && data[ch.pos + ch.size - 1] == NL
  {
    var ps := Splits(data, c);
    SplitsShape(data, c);
    SplitsAfterNewline(data, c);
    ChunksOfAt(ps, i);
    PointAfterNewline(data, ps, c, i + 1);
  }

  /** A split point of a newline-terminated file follows a newline. */
  lemma PointAfterNewline(data: seq<byte>, ps: seq<nat>, c: nat, j: nat)
    requires |data| > 0 && data[|data| - 1] == NL
    requires 0 < j < |ps| && ps[|ps| - 1] == |data|
    requires forall k :: 0 < k < |ps| - 1 ==> FirstNewlineAfter(data, ps[k - 1] + c, ps[k])
    ensures 0 < ps[j] <= |data| && data[ps[j] - 1] == NL
  {
    if j < |ps| - 1 {
      assert FirstNewlineAfter(data, ps[j - 1] + c, ps[j]);
    }
  }
}
