/**
 * The report both programs print (concurrent/concurrent.go:110-135,
 * baseline/baseline.go:57-78): the station names, sorted byte-wise, each
 * with `min/mean/max`, between braces and separated by `, `.
 */
module Report {
  import opened Bytes
  import opened Values
  import opened Stats
  import opened Tables
  import opened Hashing

  const SPACE: byte := 32   // ' '
  const COMMA: byte := 44   // ','
  const SLASH: byte := 47   // '/'
  const LBRACE: byte := 123 // '{'
  const RBRACE: byte := 125 // '}'

  // ---------------------------------------------------------------------
  // Sorting the names.

  /** No name comes after one further along, in Go's string order. */
  predicate Sorted(s: seq<seq<byte>>)
  {
    forall i, j :: 0 <= i < j < |s| ==> !Less(s[j], s[i])
  }

  /** `x` placed into sorted `s` before the first name not below it. */
  function InsertName(x: seq<byte>, s: seq<seq<byte>>): (r: seq<seq<byte>>)
    requires Sorted(s)
    ensures Sorted(r) && multiset(r) == multiset(s) + multiset{x}
    decreases |s|
  {
    if s == [] then [x]
    else if !Less(s[0], x) then
      InsertFront(x, s);
      [x] + s
    else
      var rest := InsertName(x, s[1..]);
      assert s == [s[0]] + s[1..];
      InsertBehind(x, s, rest);
      [s[0]] + rest
  }

  lemma InsertFront(x: seq<byte>, s: seq<seq<byte>>)
    requires Sorted(s) && s != [] && !Less(s[0], x)
    ensures Sorted([x] + s)
  {
    var r := [x] + s;
    forall i, j | 0 <= i < j < |r| ensures !Less(r[j], r[i]) {
      if i == 0 && Less(r[j], x) {
        var y := s[j - 1];
        if y != s[0] {
          LessTotal(y, s[0]);
          LessTransitive(s[0], y, x);
        }
        assert false;
      }
    }
  }

  lemma InsertBehind(x: seq<byte>, s: seq<seq<byte>>, rest: seq<seq<byte>>)
    requires Sorted(s) && s != [] && Less(s[0], x)
    requires Sorted(rest) && multiset(rest) == multiset(s[1..]) + multiset{x}
    ensures Sorted([s[0]] + rest)
  {
    var r := [s[0]] + rest;
    forall i, j | 0 <= i < j < |r| ensures !Less(r[j], r[i]) {
      if i == 0 {
        var y := rest[j - 1];
        assert y in multiset(rest);
        if y == x {
          if Less(x, s[0]) {
            LessTransitive(x, s[0], x);
            LessIrreflexive(x);
          }
        } else {
          assert y in s[1..];
          var k :| 0 <= k < |s[1..]| && s[1..][k] == y;
          assert s[k + 1] == y;
        }
      }
    }
  }

  /**
   * The names in Go's string order (`slices.Sort`): a sorted permutation
   * of the input.
   */
  function SortNames(s: seq<seq<byte>>): (r: seq<seq<byte>>)
    ensures Sorted(r) && multiset(r) == multiset(s)
    decreases |s|
  {
    if s == [] then []
    else
      assert s == [s[0]] + s[1..];
      InsertName(s[0], SortNames(s[1..]))
  }

  /** Two sorted lists of the same names are the same list. */
  lemma {:induction false} SortedUnique(a: seq<seq<byte>>, b: seq<seq<byte>>)
    requires Sorted(a) && Sorted(b) && multiset(a) == multiset(b)
    ensures a == b
    decreases |a|
  {
    if a != [] {
      assert a[0] in multiset(b) && b[0] in multiset(a);
      var k :| 0 <= k < |b| && b[k] == a[0];
      var m :| 0 <= m < |a| && a[m] == b[0];
      assert !Less(b[0], a[0]) && !Less(a[0], b[0]) by {
        if m > 0 { assert !Less(a[m], a[0]); }
        else { LessIrreflexive(a[0]); }
        if k > 0 { assert !Less(b[k], b[0]); }
        else { LessIrreflexive(b[0]); }
      }
      if a[0] != b[0] {
        LessTotal(a[0], b[0]);
      }
      assert a[0] == b[0];
      MultisetTail(a);
      MultisetTail(b);
      SortedUnique(a[1..], b[1..]);
    }
  }

  lemma MultisetTail(s: seq<seq<byte>>)
    requires s != []
    ensures multiset(s[1..]) == multiset(s) - multiset{s[0]}
  {
    assert s == [s[0]] + s[1..];
  }

  // ---------------------------------------------------------------------
  // Printing.

  /**
   * One station's text: `name min/mean/max`. The extremes are whole tenths
   * and print as their decimal; the mean's rounding is `mean`'s to say.
   */
  function Station(name: seq<byte>, s: Stats, mean: (int, int) -> seq<byte>): seq<byte>
  {
    name + [SPACE] + Render(s.minimum) + [SLASH] + mean(s.total, s.count) + [SLASH] + Render(s.maximum)
  }

  /** Every name in `names` has an entry in `t`. */
  predicate Known(names: seq<seq<byte>>, t: Table)
  {
    forall k :: 0 <= k < |names| ==> names[k] in t
  }

  /** The stations' texts, in the order of `names`. */
  function Stations(names: seq<seq<byte>>, t: Table, mean: (int, int) -> seq<byte>): (r: seq<seq<byte>>)
    requires Known(names, t)
    ensures |r| == |names|
    ensures forall i :: 0 <= i < |names| ==> r[i] == Station(names[i], t[names[i]], mean)
  {
    seq(|names|, i requires 0 <= i < |names| => Station(names[i], t[names[i]], mean))
  }

  lemma StationsSnoc(names: seq<seq<byte>>, i: nat, t: Table, mean: (int, int) -> seq<byte>)
    requires i < |names| && Known(names, t)
    ensures Known(names[..i + 1], t) && Known(names[..i], t)
    ensures Stations(names[..i + 1], t, mean)
      == Stations(names[..i], t, mean) + [Station(names[i], t[names[i]], mean)]
  {
  }

  /** Printing station `i` extends the joined text of the stations before it. */
  lemma PrintStep(names: seq<seq<byte>>, i: nat, t: Table, mean: (int, int) -> seq<byte>)
    requires i < |names| && Known(names, t)
    ensures Known(names[..i + 1], t) && Known(names[..i], t)
    ensures [LBRACE] + Join(Stations(names[..i + 1], t, mean), [COMMA, SPACE])
      == [LBRACE] + Join(Stations(names[..i], t, mean), [COMMA, SPACE])
         + (if i == 0 then [] else [COMMA, SPACE]) + Station(names[i], t[names[i]], mean)
  {
    var entry := Station(names[i], t[names[i]], mean);
    var before := Stations(names[..i], t, mean);
    StationsSnoc(names, i, t, mean);
    if i > 0 {
      JoinSnoc(before, entry, [COMMA, SPACE]);
    } else {
      assert before + [entry] == [entry];
    }
  }

  /** The whole report: `{` + the stations joined by `, ` + `}`. */
  function Output(names: seq<seq<byte>>, t: Table, mean: (int, int) -> seq<byte>): (out: seq<byte>)
    requires Known(names, t)
    ensures |out| >= 2 && out[0] == LBRACE && out[|out| - 1] == RBRACE
    ensures names == [] ==> out == [LBRACE, RBRACE]
  {
    [LBRACE] + Join(Stations(names, t, mean), [COMMA, SPACE]) + [RBRACE]
  }

  /**
   * The print loop: an opening brace, each station preceded by the
   * separator (empty the first time, `, ` after), a closing brace.
   */
  method Print(names: seq<seq<byte>>, t: Table, mean: (int, int) -> seq<byte>) returns (out: seq<byte>)
    requires Known(names, t)
    ensures out == Output(names, t, mean)
  {
    out := [LBRACE];
    var comma: seq<byte> := [];
    for i := 0 to |names|
      invariant comma == if i == 0 then [] else [COMMA, SPACE]
      invariant Known(names[..i], t)
      invariant out == [LBRACE] + Join(Stations(names[..i], t, mean), [COMMA, SPACE])
    {
      PrintStep(names, i, t, mean);
      out := out + comma + Station(names[i], t[names[i]], mean);
      comma := [COMMA, SPACE];
    }
    assert names[..|names|] == names;
    out := out + [RBRACE];
  }

  /**
   * `text` is the report of `t`: what printing `t`'s names in sorted
   * order gives, whichever order they were first listed in.
   */
  ghost predicate Reports(text: seq<byte>, t: Table, mean: (int, int) -> seq<byte>)
  {
    forall names :: multiset(names) == multiset(t.Keys) ==>
      Known(SortNames(names), t) && text == Output(SortNames(names), t, mean)
  }

  /** Listing a table's names in any order, sorting and printing them gives its report. */
  lemma PrintReports(names: seq<seq<byte>>, t: Table, mean: (int, int) -> seq<byte>)
    requires multiset(names) == multiset(t.Keys)
    ensures Known(SortNames(names), t)
    ensures Reports(Output(SortNames(names), t, mean), t, mean)
  {
    SortedKnown(names, t);
    forall other | multiset(other) == multiset(t.Keys)
      ensures Known(SortNames(other), t)
      ensures Output(SortNames(names), t, mean) == Output(SortNames(other), t, mean)
    {
      SortedKnown(other, t);
      SortedUnique(SortNames(names), SortNames(other));
    }
  }

  lemma SortedKnown(names: seq<seq<byte>>, t: Table)
    requires multiset(names) == multiset(t.Keys)
    ensures Known(SortNames(names), t)
  {
    var s := SortNames(names);
    forall k | 0 <= k < |s| ensures s[k] in t {
      assert s[k] in multiset(s);
    }
  }

  /** Sorting a list of known names keeps every name known. */
  lemma KnownSorted(names: seq<seq<byte>>, t: Table)
    requires Known(names, t)
    ensures Known(SortNames(names), t)
  {
    var s := SortNames(names);
    forall k | 0 <= k < |s| ensures s[k] in t {
      assert s[k] in multiset(names);
    }
  }

  /** A table has one report. */
  lemma ReportsUnique(a: seq<byte>, b: seq<byte>, t: Table, mean: (int, int) -> seq<byte>)
    requires Reports(a, t, mean) && Reports(b, t, mean)
    ensures a == b
  {
    var names := ListOf(t.Keys);
    assert a == Output(SortNames(names), t, mean);
  }

  /** Some list of the names in `s`, each once. */
  lemma ListOf(s: set<seq<byte>>) returns (names: seq<seq<byte>>)
    ensures multiset(names) == multiset(s)
    decreases s
  {
    if s == {} {
      names := [];
    } else {
      var x :| x in s;
      var rest := ListOf(s - {x});
      names := rest + [x];
      assert s == (s - {x}) + {x};
      assert multiset(s) == multiset(s - {x}) + multiset{x};
    }
  }

  // ---------------------------------------------------------------------
  // Listing the names.

  /** The names the entries of `m` carry. */
  function NamesIn(m: Dict): set<seq<byte>>
  {
    set h | h in m :: m[h].name
  }

  /**
   * `names` lists the entries of `m`, one name per entry, and `inverse`
   * maps each name to the aggregate of an entry carrying it; for a
   * `Consistent` table, no name is listed twice and `inverse` is the
   * table by name.
   */
  predicate Lists(m: Dict, names: seq<seq<byte>>, inverse: Table)
  {
    && |names| == |m|
    && inverse.Keys == NamesIn(m)
    && Known(names, inverse)
    && (forall n :: n in inverse ==> exists h :: h in m && m[h].name == n && inverse[n] == m[h].stats)
    && (Consistent(m) ==> inverse == ByName(m) && multiset(names) == multiset(inverse.Keys))
  }

  /**
   * The concurrent program's listing loop (concurrent/concurrent.go:110-119):
   * one name per entry, in the table's iteration order, and the inverse
   * map from name to aggregate. Two entries can carry the same name only
   * when the table is not `Consistent`; the inverse map then keeps one of
   * them.
   */
  method DictNames(m: Dict) returns (names: seq<seq<byte>>, inverse: Table)
    ensures Lists(m, names, inverse)
  {
    names := [];
    inverse := map[];
    var todo := m.Keys;
    ghost var owner: map<seq<byte>, nat> := map[];
    while todo != {}
      invariant Listed(m, todo, owner, names, inverse)
      decreases todo
    {
      var k :| k in todo;
      var v := m[k];
      ListedStep(m, todo, owner, names, inverse, k);
      names := names + [v.name];
      inverse := inverse[v.name := v.stats];
      owner := owner[v.name := k];
      todo := todo - {k};
    }
    ListedAll(m, owner, names, inverse);
  }

  /**
   * After listing the entries under the keys not in `todo`: one name per key,
   * every listed name mapped, each mapped name owned by a listed entry
   * that carries it and whose aggregate it maps to; and with a
   * `Consistent` table, no name twice.
   */
  ghost predicate Listed(m: Dict, todo: set<nat>, owner: map<seq<byte>, nat>, names: seq<seq<byte>>, inverse: Table)
  {
    && todo <= m.Keys && |names| + |todo| == |m|
    && (forall h :: h in m && h !in todo ==> m[h].name in inverse)
    && (forall n :: n in inverse ==> Owns(m, todo, owner, inverse, n))
    && Known(names, inverse)
    && (Consistent(m) ==> multiset(names) == multiset(inverse.Keys))
  }

  lemma ListedStep(m: Dict, todo: set<nat>, owner: map<seq<byte>, nat>, names: seq<seq<byte>>, inverse: Table, k: nat)
    requires Listed(m, todo, owner, names, inverse) && k in todo
    ensures Listed(m, todo - {k}, owner[m[k].name := k], names + [m[k].name], inverse[m[k].name := m[k].stats])
  {
    var v := m[k];
    var inverse' := inverse[v.name := v.stats];
    var names' := names + [v.name];
    var todo' := todo - {k};
    assert |todo'| == |todo| - 1;
    assert Known(names', inverse') by {
      forall j | 0 <= j < |names'| ensures names'[j] in inverse' {
        if j < |names| {
          assert names'[j] == names[j];
        }
      }
    }
    if Consistent(m) {
      if v.name in inverse {
        assert false;
      }
      AddNewName(names, inverse.Keys, v.name);
    }
    OwnsStep(m, todo, owner, inverse, k, todo', owner[v.name := k], inverse');
  }

  /** Taking the entry under `k` off the list keeps every mapped name owned. */
  lemma OwnsStep(m: Dict, todo: set<nat>, owner: map<seq<byte>, nat>, inverse: Table, k: nat,
                 todo': set<nat>, owner': map<seq<byte>, nat>, inverse': Table)
    requires todo <= m.Keys && k in todo
    requires forall n :: n in inverse ==> Owns(m, todo, owner, inverse, n)
    requires todo' == todo - {k} && owner' == owner[m[k].name := k] && inverse' == inverse[m[k].name := m[k].stats]
    ensures forall n :: n in inverse' ==> Owns(m, todo', owner', inverse', n)
  {
    forall n | n in inverse' ensures Owns(m, todo', owner', inverse', n) {
      if n != m[k].name {
        assert Owns(m, todo, owner, inverse, n);
      }
    }
  }

  lemma ListedAll(m: Dict, owner: map<seq<byte>, nat>, names: seq<seq<byte>>, inverse: Table)
    requires Listed(m, {}, owner, names, inverse)
    ensures Lists(m, names, inverse)
  {
    forall n | n in inverse ensures exists h :: h in m && m[h].name == n && inverse[n] == m[h].stats {
      assert Owns(m, {}, owner, inverse, n);
    }
    forall n | n in NamesIn(m) ensures n in inverse {
      var h :| h in m && m[h].name == n;
    }
    if Consistent(m) {
      var b := ByName(m);
      forall n | n in inverse ensures n in b && inverse[n] == b[n] {
        assert Owns(m, {}, owner, inverse, n);
      }
    }
  }

  /** `n` came from the entry `owner[n]` of `m`, one of the keys listed so far. */
  ghost predicate Owns(m: Dict, todo: set<nat>, owner: map<seq<byte>, nat>, inverse: Table, n: seq<byte>)
    requires n in inverse
  {
    n in owner && owner[n] in m && owner[n] !in todo && m[owner[n]].name == n && inverse[n] == m[owner[n]].stats
  }

  lemma AddNewName(names: seq<seq<byte>>, keys: set<seq<byte>>, x: seq<byte>)
    requires multiset(names) == multiset(keys) && x !in keys
    ensures multiset(names + [x]) == multiset(keys + {x})
  {
    assert multiset(keys + {x}) == multiset(keys) + multiset{x};
  }

  /** The baseline's listing loop (baseline/baseline.go:57-62): every key once. */
  method TableNames(t: Table) returns (names: seq<seq<byte>>)
    ensures multiset(names) == multiset(t.Keys)
  {
    names := [];
    var todo := t.Keys;
    while todo != {}
      invariant todo <= t.Keys
      invariant multiset(names) == multiset(t.Keys - todo)
      decreases todo
    {
      var k :| k in todo;
      assert t.Keys - (todo - {k}) == (t.Keys - todo) + {k};
      assert multiset((t.Keys - todo) + {k}) == multiset(t.Keys - todo) + multiset{k};
      names := names + [k];
      todo := todo - {k};
    }
  }
}

