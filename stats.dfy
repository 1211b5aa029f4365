/**
 * The per-station aggregate `{minimum, maximum, total, count}`, all in
 * tenths, and the three ways the programs change one: a first sighting,
 * a later sighting of one reading, and the merge of two partial results.
 */
module Stats {

  datatype Stats = Stats(minimum: int, maximum: int, total: int, count: int)

  /** What every aggregate the programs build satisfies. */
  predicate Valid(s: Stats)
  {
    && s.count >= 1
    && s.minimum <= s.maximum
    && s.minimum * s.count <= s.total <= s.maximum * s.count
  }

  function Min(a: int, b: int): int { if a <= b then a else b }
  function Max(a: int, b: int): int { if a <= b then b else a }

  /** A station seen for the first time with reading `v`: `{v, v, v, 1}`. */
  function First(v: int): (s: Stats)
    ensures Valid(s)
    ensures s.minimum == s.maximum == s.total == v && s.count == 1
  {
    Stats(v, v, v, 1)
  }

  /** A later reading `v`: min/max move to include it, total and count grow. */
  function Update(s: Stats, v: int): (r: Stats)
    ensures Valid(s) ==> Valid(r)
    ensures r.count == s.count + 1 && r.total == s.total + v
    ensures r.minimum <= v <= r.maximum
    ensures r.minimum == s.minimum || r.minimum == v
    ensures r.maximum == s.maximum || r.maximum == v
    ensures s.minimum <= s.maximum ==> r.minimum <= s.minimum && s.maximum <= r.maximum
  {
    var r := Stats(Min(s.minimum, v), Max(s.maximum, v), s.total + v, s.count + 1);
    assert Valid(s) ==> Valid(r) by {
      if Valid(s) {
        assert r.minimum * r.count <= r.total by {
          assert r.minimum * s.count <= s.minimum * s.count;
          assert r.minimum * r.count == r.minimum * s.count + r.minimum;
        }
        assert r.total <= r.maximum * r.count by {
          assert s.maximum * s.count <= r.maximum * s.count;
          assert r.maximum * r.count == r.maximum * s.count + r.maximum;
        }
      }
    }
    r
  }

  /** Two partial results for one station: counts and totals add, extremes combine. */
  function Combine(a: Stats, b: Stats): (r: Stats)
    ensures Valid(a) && Valid(b) ==> Valid(r)
    ensures r.count == a.count + b.count && r.total == a.total + b.total
    ensures r.minimum <= a.minimum && r.minimum <= b.minimum
    ensures r.maximum >= a.maximum && r.maximum >= b.maximum
    ensures r.minimum == a.minimum || r.minimum == b.minimum
    ensures r.maximum == a.maximum || r.maximum == b.maximum
  {
    var r := Stats(Min(a.minimum, b.minimum), Max(a.maximum, b.maximum), a.total + b.total, a.count + b.count);
    assert Valid(a) && Valid(b) ==> Valid(r) by {
      if Valid(a) && Valid(b) {
        BoundsAdd(r.minimum, a.minimum, a.count, a.total, a.maximum, r.maximum);
        BoundsAdd(r.minimum, b.minimum, b.count, b.total, b.maximum, r.maximum);
        Distribute(r.minimum, a.count, b.count);
        Distribute(r.maximum, a.count, b.count);
      }
    }
    r
  }

  /** Widening the extremes keeps `lo * n <= total <= hi * n`. */
  lemma BoundsAdd(lo: int, min: int, n: int, total: int, max: int, hi: int)
    requires lo <= min && max <= hi && n >= 0
    requires min * n <= total <= max * n
    ensures lo * n <= total <= hi * n
  {
    assert (min - lo) * n >= 0;
    assert (hi - max) * n >= 0;
  }

  lemma Distribute(x: int, m: int, n: int)
    ensures x * (m + n) == x * m + x * n
  {
  }

  /** A later sighting is a merge with a one-reading aggregate. */
  lemma UpdateIsCombine(s: Stats, v: int)
    ensures Update(s, v) == Combine(s, First(v))
  {
  }

  /** Merge order does not matter ... */
  lemma CombineCommutes(a: Stats, b: Stats)
    ensures Combine(a, b) == Combine(b, a)
  {
  }

  /** ... and neither does grouping. */
  lemma CombineAssociates(a: Stats, b: Stats, c: Stats)
    ensures Combine(Combine(a, b), c) == Combine(a, Combine(b, c))
  {
  }
}
