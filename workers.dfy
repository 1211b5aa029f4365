/**
 * Static round-robin assignment of chunks to the worker pool
 * (concurrent/concurrent.go:61-67): worker `i` is handed chunks
 * `i, i + WorkPool, i + 2*WorkPool, ...` before it starts.
 */
module Workers {
  import opened Planner

  /** Number of workers (concurrent/concurrent.go:16). */
  const WorkPool: nat := 16

  /** The worker numbers `0, 1, ..., n - 1`. */
  function Range(n: nat): seq<nat>
  {
    seq(n, i => i)
  }

  /** The indices `j, j + w, j + 2w, ...` below `n`. */
  function OwnedFrom(n: nat, w: nat, j: nat): seq<nat>
    requires w > 0
    decreases n - j
  {
    if j >= n then [] else [j] + OwnedFrom(n, w, j + w)
  }

  /** The chunks at the given indices, in that order. */
  function Gather(chks: seq<Chunk>, idx: seq<nat>): (r: seq<Chunk>)
    requires forall k :: 0 <= k < |idx| ==> idx[k] < |chks|
    ensures |r| == |idx|
    ensures forall k :: 0 <= k < |idx| ==> r[k] == chks[idx[k]]
  {
    if idx == [] then [] else [chks[idx[0]]] + Gather(chks, idx[1..])
  }

  /** Worker `i`'s list: every `w`th chunk from chunk `i` on. */
  method Assign(chks: seq<Chunk>, w: nat, i: nat) returns (args: seq<Chunk>)
    requires w > 0
    ensures OwnedBelow(|chks|, w, i)
    ensures args == Gather(chks, OwnedFrom(|chks|, w, i))
  {
    args := [];
    var j := i;
    OwnedBounds(|chks|, w, i);
    while j < |chks|
      invariant OwnedBelow(|chks|, w, j)
      invariant args + Gather(chks, OwnedFrom(|chks|, w, j)) == Gather(chks, OwnedFrom(|chks|, w, i))
      decreases |chks| - j
    {
      OwnedBounds(|chks|, w, j + w);
      var rest := OwnedFrom(|chks|, w, j + w);
      assert OwnedFrom(|chks|, w, j) == [j] + rest;
      assert Gather(chks, [j] + rest) == [chks[j]] + Gather(chks, rest) by {
        assert ([j] + rest)[1..] == rest;
      }
      args := args + [chks[j]];
      j := j + w;
    }
  }

  /** Every index in `OwnedFrom(n, w, j)` is a valid chunk index. */
  predicate OwnedBelow(n: nat, w: nat, j: nat)
    requires w > 0
  {
    forall k :: 0 <= k < |OwnedFrom(n, w, j)| ==> OwnedFrom(n, w, j)[k] < n
  }

  lemma {:induction false} OwnedBounds(n: nat, w: nat, j: nat)
    requires w > 0
    ensures OwnedBelow(n, w, j)
    decreases n - j
  {
    if j < n {
      OwnedBounds(n, w, j + w);
    }
  }

  predicate Ascending(o: seq<nat>)
  {
    forall k :: 0 <= k < |o| - 1 ==> o[k] < o[k + 1]
  }

  /**
   * `OwnedFrom(n, w, j)` rises strictly and holds exactly the indices
   * `k` in `[j, n)` that are `j` plus a multiple of `w`.
   */
  lemma {:induction false} OwnedFromMeaning(n: nat, w: nat, j: nat)
    requires w > 0
    ensures Ascending(OwnedFrom(n, w, j))
    ensures forall x :: x in OwnedFrom(n, w, j) <==> j <= x < n && (x - j) % w == 0
    decreases n - j
  {
    var o := OwnedFrom(n, w, j);
    if j < n {
      OwnedFromMeaning(n, w, j + w);
      var rest := OwnedFrom(n, w, j + w);
      assert o == [j] + rest;
      forall x ensures x in o <==> j <= x < n && (x - j) % w == 0 {
        assert x in o <==> x == j || x in rest;
        if j + w <= x {
          ModShift(x - (j + w), w);
        } else if j < x {
          DivModUnique(x - j, w, 0, x - j);
        } else if x == j {
          DivModUnique(0, w, 0, 0);
        }
      }
      forall k | 0 <= k < |o| - 1 ensures o[k] < o[k + 1] {
        if k == 0 {
          assert o[1] == rest[0] && rest[0] in rest;
        } else {
          assert o[k] == rest[k - 1] && o[k + 1] == rest[k];
        }
      }
      assert Ascending(o);
    }
  }

  /**
   * Worker `i` gets exactly the chunks `j` with `j mod w == i`, in
   * ascending order; so every chunk goes to exactly one worker.
   */
  lemma RoundRobin(n: nat, w: nat, j: nat)
    requires w > 0 && j < n
    ensures j in OwnedFrom(n, w, j % w)
    ensures forall i :: 0 <= i < w && i != j % w ==> j !in OwnedFrom(n, w, i)
  {
    OwnedFromMeaning(n, w, j % w);
    Residue(j, w, j % w);
    forall i | 0 <= i < w && i != j % w ensures j !in OwnedFrom(n, w, i) {
      OwnedFromMeaning(n, w, i);
      if i <= j {
        Residue(j, w, i);
      }
    }
  }

  /** `j` is `i` plus a multiple of `w` exactly when `i` is `j mod w`. */
  lemma Residue(j: nat, w: nat, i: nat)
    requires w > 0 && i < w && i <= j
    ensures (j - i) % w == 0 <==> i == j % w
  {
    var q := j / w;
    assert j == q * w + j % w;
    if i == j % w {
      DivModUnique(j - i, w, q, 0);
    } else if (j - i) % w == 0 {
      var d := (j - i) / w;
      assert j - i == d * w;
      DivModUnique(j, w, d, i);
    }
  }

  /** One more chunk `n` joins the end of the list of worker `n mod w`, and no other. */
  lemma {:induction false} OwnedGrow(n: nat, w: nat, j: nat)
    requires w > 0
    ensures OwnedFrom(n + 1, w, j) ==
      if j <= n && (n - j) % w == 0 then OwnedFrom(n, w, j) + [n] else OwnedFrom(n, w, j)
    decreases n + 1 - j
  {
    if j < n {
      OwnedGrow(n, w, j + w);
      if j + w <= n {
        ModShift(n - (j + w), w);
      } else {
        DivModUnique(n - j, w, 0, n - j);
      }
    }
  }

  lemma MulAtLeast(d: int, w: int)
    requires d >= 1 && w > 0
    ensures d * w >= w
  {
  }

  /** Quotient and remainder are the only ones: `a == q*w + r` with `0 <= r < w`. */
  lemma DivModUnique(a: int, w: int, q: int, r: int)
    requires w > 0 && 0 <= r < w && a == q * w + r
    ensures a / w == q && a % w == r
  {
    var q', r' := a / w, a % w;
    assert a == q' * w + r';
    assert (q - q') * w == r' - r;
    if q' > q {
      MulAtLeast(q' - q, w);
      assert false;
    } else if q > q' {
      MulAtLeast(q - q', w);
      assert false;
    }
  }

  lemma ModShift(a: int, w: int)
    requires w > 0
    ensures (a + w) % w == a % w
  {
    DivModUnique(a + w, w, a / w + 1, a % w);
  }
}
