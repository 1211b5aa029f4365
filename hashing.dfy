/**
 * The concurrent program keys its tables by a 64-bit rolling hash of the
 * station name instead of the name (concurrent/concurrent.go:25-29), and
 * keeps one representative name per entry. This module defines those
 * hash-keyed tables and their two updates, and proves that as long as no
 * two names in play share a hash, a hash-keyed table tracks exactly the
 * name-keyed table of the same records.
 */
module Hashing {
  import opened Bytes
  import opened Stats
  import opened Tables

  /** Go's `uint64(c)`: the byte as a 64-bit word, built bit by bit. */
  function Widen(c: byte): bv64
  {
    if c == 0 then 0 else (Widen(c / 2) << 1) | (if c % 2 == 1 then 1 else 0)
  }

  /** One step of the hash: `hash <<= 5; hash |= uint64(c)`. */
  function Mix(hash: bv64, c: byte): bv64
  {
    (hash << 5) | Widen(c)
  }

  /** The hash of the bytes, mixed in from the first, starting from 0, in 64 bits. */
  function HashBits(s: seq<byte>): bv64
  {
    if s == [] then 0 else Mix(HashBits(s[..|s| - 1]), s[|s| - 1])
  }

  /** One more byte shifts the hash left by five and ors the byte in. */
  lemma HashPrefix(s: seq<byte>, i: nat)
    requires i < |s|
    ensures HashBits(s[..i + 1]) == Mix(HashBits(s[..i]), s[i])
  {
    assert s[..i + 1][..i] == s[..i];
  }

  /** `h` shifted left by five bits `n` times, in 64 bits. */
  function Shifted(h: bv64, n: nat): bv64
  {
    if n == 0 then h else Shifted(h, n - 1) << 5
  }

  /** The hash of `p + q` is the hash of `p`, shifted once per byte of `q`, or-ed with the hash of `q`. */
  lemma {:induction false} HashAppend(p: seq<byte>, q: seq<byte>)
    ensures HashBits(p + q) == Shifted(HashBits(p), |q|) | HashBits(q)
    decreases |q|
  {
    if q == [] {
      assert p + q == p;
    } else {
      var q', c := q[..|q| - 1], q[|q| - 1];
      assert (p + q)[..|p + q| - 1] == p + q';
      HashAppend(p, q');
      OrShift(Shifted(HashBits(p), |q'|), HashBits(q'), Widen(c));
    }
  }

  lemma OrShift(a: bv64, b: bv64, w: bv64)
    ensures ((a | b) << 5) | w == (a << 5) | ((b << 5) | w)
  {
  }

  /** Thirteen shifts by five move every bit out of 64. */
  lemma {:induction false} ShiftedOut(h: bv64, n: nat)
    requires n >= 13
    ensures Shifted(h, n) == 0
  {
    if n > 13 {
      ShiftedOut(h, n - 1);
    } else {
      assert Shifted(h, 1) == h << 5;
      assert Shifted(h, 2) == h << 10;
      assert Shifted(h, 3) == h << 15;
      assert Shifted(h, 4) == h << 20;
      assert Shifted(h, 5) == h << 25;
      assert Shifted(h, 6) == h << 30;
      assert Shifted(h, 7) == h << 35;
      assert Shifted(h, 8) == h << 40;
      assert Shifted(h, 9) == h << 45;
      assert Shifted(h, 10) == h << 50;
      assert Shifted(h, 11) == h << 55;
      assert Shifted(h, 12) == h << 60;
    }
  }

  /**
   * Only a name's last 13 bytes reach the 64-bit hash: two names that
   * end in the same 13 bytes share a hash, however they begin.
   */
  lemma HashSuffix(p: seq<byte>, q: seq<byte>)
    requires |q| >= 13
    ensures HashBits(p + q) == HashBits(q)
  {
    HashAppend(p, q);
    ShiftedOut(HashBits(p), |q|);
  }

  /** Go's `uint64` hash of a name, as a number. */
  function Hash(s: seq<byte>): nat
  {
    HashBits(s) as int
  }

  /** Go's concurrent `Data`: the aggregate and one copy of the name. */
  datatype Entry = Entry(stats: Stats, name: seq<byte>)

  /** Go's `Dict`: hash to entry. */
  type Dict = map<nat, Entry>

  /**
   * One reading under hash `h` (concurrent/concurrent.go:269-277): an
   * unseen hash gets `{v,v,v,1,name}`; a seen one is updated and keeps
   * the name it already has.
   */
  function Insert(d: Dict, h: nat, name: seq<byte>, v: int): (d': Dict)
    ensures d'.Keys == d.Keys + {h}
    ensures h !in d ==> d'[h] == Entry(First(v), name)
    ensures h in d ==> d'[h] == Entry(Update(d[h].stats, v), d[h].name)
    ensures forall k :: k in d && k != h ==> d'[k] == d[k]
  {
    if h in d then d[h := Entry(Update(d[h].stats, v), d[h].name)]
    else d[h := Entry(First(v), name)]
  }

  /** Records, in order, inserted under the hashes of their names. */
  function InsertAll(d: Dict, recs: seq<Record>): Dict
    decreases |recs|
  {
    if recs == [] then d
    else InsertAll(Insert(d, Hash(recs[0].name), recs[0].name, recs[0].value), recs[1..])
  }

  /**
   * One worker's table `w` folded into the global `g`
   * (concurrent/concurrent.go:94-104): a hash absent from `g` is copied
   * in, a present one gets summed counts and totals and the extreme
   * extremes, and keeps `g`'s name.
   */
  function MergeInto(g: Dict, w: Dict): (m: Dict)
    ensures m.Keys == g.Keys + w.Keys
    ensures forall k :: k in g && k in w ==> m[k] == Entry(Combine(g[k].stats, w[k].stats), g[k].name)
    ensures forall k :: k in g && k !in w ==> m[k] == g[k]
    ensures forall k :: k !in g && k in w ==> m[k] == w[k]
  {
    map k | k in g.Keys + w.Keys ::
      if k in g && k in w then Entry(Combine(g[k].stats, w[k].stats), g[k].name)
      else if k in g then g[k]
      else w[k]
  }

  /** No two distinct names in `names` share a hash. */
  predicate NoClash(names: set<seq<byte>>)
  {
    forall a, b :: a in names && b in names && Hash(a) == Hash(b) ==> a == b
  }

  /** Every entry sits under the hash of the name it carries. */
  predicate Consistent(d: Dict)
  {
    forall h :: h in d ==> Hash(d[h].name) == h
  }

  /** `d` is `t` stored under hashes: one entry per name, carrying that name. */
  predicate Represents(d: Dict, t: Table)
  {
    && (forall n :: n in t ==> Hash(n) in d && d[Hash(n)] == Entry(t[n], n))
    && (forall h :: h in d ==> d[h].name in t && Hash(d[h].name) == h)
  }

  /**
   * The name-keyed view of a hash-keyed table, as the report step builds
   * it (concurrent/concurrent.go:110-119): each entry's aggregate filed
   * under the entry's name.
   */
  function ByName(d: Dict): (t: Table)
    requires Consistent(d)
    ensures forall h :: h in d ==> d[h].name in t && t[d[h].name] == d[h].stats
    ensures forall n :: n in t ==> Hash(n) in d && d[Hash(n)].name == n
  {
    map n | n in (set h | h in d :: d[h].name) :: d[Hash(n)].stats
  }

  /** A table that represents `t` reads back, by name, as exactly `t`. */
  lemma RepresentsByName(d: Dict, t: Table)
    requires Represents(d, t)
    ensures Consistent(d) && ByName(d) == t
  {
    var b := ByName(d);
    forall n | n in t ensures n in b {
      assert d[Hash(n)].name == n;
    }
  }

  lemma EmptyRepresents()
    ensures Represents(map[], map[])
  {
  }

  /** Inserting a record keeps the correspondence, if its name clashes with no other. */
  lemma InsertRepresents(d: Dict, t: Table, r: Record)
    requires Represents(d, t)
    requires NoClash(t.Keys + {r.name})
    ensures Represents(Insert(d, Hash(r.name), r.name, r.value), Add(t, r))
  {
    var h := Hash(r.name);
    var d', t' := Insert(d, h, r.name, r.value), Add(t, r);
    if h in d {
      assert d[h].name in t;
      assert d[h].name == r.name;
    }
    forall n | n in t' ensures Hash(n) in d' && d'[Hash(n)] == Entry(t'[n], n) {
      if n != r.name {
        assert n in t;
        assert Hash(n) != h;
      }
    }
    forall k | k in d' ensures d'[k].name in t' && Hash(d'[k].name) == k {
      if k != h {
        assert k in d;
      }
    }
  }

  lemma {:induction false} InsertAllRepresents(d: Dict, t: Table, recs: seq<Record>)
    requires Represents(d, t)
    requires NoClash(t.Keys + Names(recs))
    ensures Represents(InsertAll(d, recs), AddAll(t, recs))
    decreases |recs|
  {
    if recs != [] {
      var r := recs[0];
      assert recs == [r] + recs[1..];
      NamesCons(r, recs[1..]);
      NoClashSub(t.Keys + {r.name}, t.Keys + Names(recs));
      NoClashSub(Add(t, r).Keys + Names(recs[1..]), t.Keys + Names(recs));
      InsertRepresents(d, t, r);
      InsertAllRepresents(Insert(d, Hash(r.name), r.name, r.value), Add(t, r), recs[1..]);
    }
  }

  lemma NoClashSub(a: set<seq<byte>>, b: set<seq<byte>>)
    requires a <= b && NoClash(b)
    ensures NoClash(a)
  {
  }

  /** Merging keeps the correspondence, if the two tables' names clash with no other. */
  lemma MergeRepresents(g: Dict, tg: Table, w: Dict, tw: Table)
    requires Represents(g, tg) && Represents(w, tw)
    requires NoClash(tg.Keys + tw.Keys)
    ensures Represents(MergeInto(g, w), Merge(tg, tw))
  {
    var m, t := MergeInto(g, w), Merge(tg, tw);
    forall n | n in t ensures Hash(n) in m && m[Hash(n)] == Entry(t[n], n) {
      MergeRepresentsAt(g, tg, w, tw, n);
    }
    forall h | h in m ensures m[h].name in t && Hash(m[h].name) == h {
      if h in g {
        assert m[h].name == g[h].name;
      } else {
        assert m[h].name == w[h].name;
      }
    }
  }

  lemma MergeRepresentsAt(g: Dict, tg: Table, w: Dict, tw: Table, n: seq<byte>)
    requires Represents(g, tg) && Represents(w, tw)
    requires NoClash(tg.Keys + tw.Keys)
    requires n in tg || n in tw
    ensures Hash(n) in MergeInto(g, w)
    ensures MergeInto(g, w)[Hash(n)] == Entry(Merge(tg, tw)[n], n)
  {
    var h := Hash(n);
    if h in g {
      assert g[h].name in tg && Hash(g[h].name) == h;
    }
    if h in w {
      assert w[h].name in tw && Hash(w[h].name) == h;
    }
  }
}
