/**
 * Raw bytes of the measurements file and the byte-string helpers the
 * aggregators share: first occurrence of a byte, Go's byte-wise string
 * order, and joining with a separator.
 */
module Bytes {

  /** A Go `byte` (uint8). */
  newtype byte = b: int | 0 <= b < 256

  const NL: byte := 10     // '\n'
  const CR: byte := 13     // '\r'
  const MINUS: byte := 45  // '-'
  const DOT: byte := 46    // '.'
  const ZERO: byte := 48   // '0'
  const SEMI: byte := 59   // ';'

  /** The index of the first `c` in `s`, or `|s|` when `s` holds no `c`. */
  function Find(s: seq<byte>, c: byte): (k: nat)
    ensures k <= |s|
    ensures k < |s| ==> s[k] == c
    ensures forall i :: 0 <= i < k ==> s[i] != c
  {
    if s == [] then 0
    else if s[0] == c then 0
    else 1 + Find(s[1..], c)
  }

  /** `k` is the first `x` in `s`. */
  lemma FindAt(s: seq<byte>, x: byte, k: nat)
    requires k < |s| && s[k] == x
    requires forall i :: 0 <= i < k ==> s[i] != x
    ensures Find(s, x) == k
  {
  }

  /** `s` holds no `x`. */
  lemma FindNone(s: seq<byte>, x: byte)
    requires forall i :: 0 <= i < |s| ==> s[i] != x
    ensures Find(s, x) == |s|
  {
  }

  /** Go's string comparison `a < b`: byte-wise lexicographic order. */
  predicate Less(a: seq<byte>, b: seq<byte>)
  {
    if a == [] then b != []
    else b != [] && (a[0] < b[0] || (a[0] == b[0] && Less(a[1..], b[1..])))
  }

  lemma {:induction false} LessIrreflexive(a: seq<byte>)
    ensures !Less(a, a)
  {
    if a != [] {
      LessIrreflexive(a[1..]);
    }
  }

  lemma {:induction false} LessTransitive(a: seq<byte>, b: seq<byte>, c: seq<byte>)
    requires Less(a, b) && Less(b, c)
    ensures Less(a, c)
  {
    if a != [] && a[0] == b[0] && b[0] == c[0] {
      LessTransitive(a[1..], b[1..], c[1..]);
    }
  }

  /** Any two distinct strings are ordered one way or the other. */
  lemma {:induction false} LessTotal(a: seq<byte>, b: seq<byte>)
    requires a != b
    ensures Less(a, b) || Less(b, a)
  {
    if a != [] && b != [] && a[0] == b[0] {
      assert a == [a[0]] + a[1..] && b == [b[0]] + b[1..];
      LessTotal(a[1..], b[1..]);
    }
  }

  /** The elements of `parts` with `sep` between neighbours and nowhere else. */
  function Join(parts: seq<seq<byte>>, sep: seq<byte>): seq<byte>
  {
    if |parts| == 0 then []
    else if |parts| == 1 then parts[0]
    else parts[0] + sep + Join(parts[1..], sep)
  }

  /** Joining one more part at the end adds exactly one separator before it. */
  lemma {:induction false} JoinSnoc(parts: seq<seq<byte>>, p: seq<byte>, sep: seq<byte>)
    requires parts != []
    ensures Join(parts + [p], sep) == Join(parts, sep) + sep + p
  {
    if |parts| == 1 {
      assert parts + [p] == [parts[0], p];
      assert (parts + [p])[1..] == [p];
    } else {
      assert (parts + [p])[1..] == parts[1..] + [p];
      JoinSnoc(parts[1..], p, sep);
    }
  }
}
