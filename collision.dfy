/**
 * The concurrent program's hash is lossy (concurrent/concurrent.go:239-240):
 * distinct station names can share a hash, and then their readings are
 * filed under one entry.
 */
module Collision {
  import opened Bytes
  import opened Stats
  import opened Tables
  import opened Hashing

  /**
   * `ab` and `aB` share a hash, so the concurrent program files the
   * readings of both stations under one entry named `ab`, where the
   * name-keyed aggregation keeps them apart.
   */
  lemma CollisionMergesStations()
    ensures var ab, aB := [97 as byte, 98], [97 as byte, 66];
      var recs := [Record(ab, 10), Record(aB, 20)];
      && ab != aB && Hash(ab) == Hash(aB)
      && InsertAll(map[], recs) == map[Hash(ab) := Entry(Stats(10, 20, 30, 2), ab)]
      && Aggregate(recs) == map[ab := First(10), aB := First(20)]
  {
    var ab, aB := [97 as byte, 98], [97 as byte, 66];
    assert ab != aB by {
      assert ab[1] != aB[1];
    }
    SameHash();
    OneEntry(ab, aB, 10, 20);
    TwoEntries(ab, aB, 10, 20);
  }

  /** Two readings whose names share a hash end up in one entry, under the first name. */
  lemma OneEntry(a: seq<byte>, b: seq<byte>, v: int, w: int)
    requires Hash(a) == Hash(b)
    ensures InsertAll(map[], [Record(a, v), Record(b, w)])
      == map[Hash(a) := Entry(Update(First(v), w), a)]
  {
    var recs := [Record(a, v), Record(b, w)];
    assert recs[1..] == [Record(b, w)] && recs[1..][1..] == [];
    var d1 := Insert(map[], Hash(a), a, v);
    var d2 := Insert(d1, Hash(b), b, w);
    assert d2 == map[Hash(a) := Entry(Update(First(v), w), a)];
    assert InsertAll(map[], recs) == InsertAll(d1, recs[1..]);
    assert InsertAll(d1, recs[1..]) == InsertAll(d2, recs[1..][1..]);
  }

  /** Keyed by name, two distinct names stay two stations. */
  lemma TwoEntries(a: seq<byte>, b: seq<byte>, v: int, w: int)
    requires a != b
    ensures Aggregate([Record(a, v), Record(b, w)]) == map[a := First(v), b := First(w)]
  {
    var recs := [Record(a, v), Record(b, w)];
    assert recs[1..] == [Record(b, w)] && recs[1..][1..] == [];
    var t1 := Add(map[], recs[0]);
    var t2 := Add(t1, recs[1]);
    assert t2 == map[a := First(v), b := First(w)];
    assert AddAll(map[], recs) == AddAll(t1, recs[1..]);
    assert AddAll(t1, recs[1..]) == AddAll(t2, recs[1..][1..]);
  }

  lemma SameHash()
    ensures Hash([97 as byte, 98]) == 3170 && Hash([97 as byte, 66]) == 3170
  {
    HashOfTwo(98);
    HashOfTwo(66);
  }

  lemma HashOfTwo(b: byte)
    requires b == 98 || b == 66
    ensures Hash([97 as byte, b]) == 3170
  {
    var s: seq<byte> := [97, b];
    assert s[..1] == [97];
    assert [97 as byte][..0] == [];
    assert HashBits([]) == 0;
    assert HashBits([97]) == 97;
    if b == 98 {
      assert HashBits(s) == 3170;
    } else {
      assert HashBits(s) == 3170;
    }
  }
}
