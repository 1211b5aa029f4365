/**
 * Measurement files as the challenge defines them: one `name;value`
 * line per reading, each ending in a newline, names free of `;` and
 * newlines, values written with one fractional digit. Both programs are
 * shown to read such a file back as exactly its readings.
 */
module Encoding {
  import opened Bytes
  import opened Values
  import opened Tables
  import opened Hashing
  import opened Reader
  import opened Results
  import Baseline

  /** One reading as a line of the file. */
  function Text(r: Record): seq<byte>
  {
    r.name + [SEMI] + Render(r.value) + [NL]
  }

  /** The file holding the readings, one line each, in order. */
  function Encode(rs: seq<Record>): seq<byte>
  {
    if rs == [] then [] else Text(rs[0]) + Encode(rs[1..])
  }

  /** No name holds a `;` or a newline. */
  predicate WellFormed(rs: seq<Record>)
  {
    forall k :: 0 <= k < |rs| ==> SEMI !in rs[k].name && NL !in rs[k].name
  }

  lemma WellFormedSlice(rs: seq<Record>, j: nat, k: nat)
    requires WellFormed(rs) && j <= k <= |rs|
    ensures WellFormed(rs[j..k])
  {
    forall i | 0 <= i < k - j ensures SEMI !in rs[j..k][i].name && NL !in rs[j..k][i].name {
      assert rs[j..k][i] == rs[j + i];
    }
  }

  lemma {:induction false} EncodeConcat(a: seq<Record>, b: seq<Record>)
    ensures Encode(a + b) == Encode(a) + Encode(b)
  {
    if a == [] {
      assert a + b == b;
    } else {
      assert (a + b)[1..] == a[1..] + b;
      EncodeConcat(a[1..], b);
    }
  }

  /** The only newline of a line is its last byte. */
  lemma TextNewline(r: Record, i: nat)
    requires NL !in r.name && i < |Text(r)|
    ensures Text(r)[i] == NL <==> i == |Text(r)| - 1
  {
    var v := Render(r.value);
    if i < |r.name| {
      assert Text(r)[i] == r.name[i];
    } else if |r.name| < i < |Text(r)| - 1 {
      assert Text(r)[i] == v[i - |r.name| - 1];
    }
  }

  // ---------------------------------------------------------------------
  // Where the lines start.

  /** The offset of the `j`th line in the file. */
  function Offset(rs: seq<Record>, j: nat): (p: nat)
    requires j <= |rs|
    ensures p <= |Encode(rs)|
  {
    assert rs == rs[..j] + rs[j..];
    EncodeConcat(rs[..j], rs[j..]);
    |Encode(rs[..j])|
  }

  /**
   * Offsets rise strictly with the line number, and the bytes between
   * two offsets are the lines between them.
   */
  lemma Piece(rs: seq<Record>, j: nat, k: nat)
    requires j <= k <= |rs|
    ensures Offset(rs, j) <= Offset(rs, k) <= |Encode(rs)|
    ensures j < k ==> Offset(rs, j) < Offset(rs, k)
    ensures Encode(rs)[Offset(rs, j)..Offset(rs, k)] == Encode(rs[j..k])
  {
    assert rs == rs[..j] + rs[j..k] + rs[k..];
    assert rs[..k] == rs[..j] + rs[j..k];
    EncodeConcat(rs[..j] + rs[j..k], rs[k..]);
    EncodeConcat(rs[..j], rs[j..k]);
  }

  lemma Whole(rs: seq<Record>)
    ensures Offset(rs, 0) == 0 && Offset(rs, |rs|) == |Encode(rs)|
  {
    assert rs[..0] == [] && rs[..|rs|] == rs;
  }

  /** A position just past a newline is where some line starts. */
  lemma {:induction false} NewlineCut(rs: seq<Record>, p: nat) returns (j: nat)
    requires WellFormed(rs)
    requires 0 < p <= |Encode(rs)| && Encode(rs)[p - 1] == NL
    ensures 0 < j <= |rs| && Offset(rs, j) == p
  {
    var t, rest := Text(rs[0]), rs[1..];
    assert Encode(rs) == t + Encode(rest);
    assert [rs[0]] + [] == rs[..1];
    if p <= |t| {
      assert t[p - 1] == NL;
      TextNewline(rs[0], p - 1);
      j := 1;
      assert Encode(rs[..1]) == t + Encode([]);
    } else {
      assert WellFormed(rest) by {
        forall k | 0 <= k < |rest| ensures SEMI !in rest[k].name && NL !in rest[k].name {
          assert rest[k] == rs[k + 1];
        }
      }
      var j' := NewlineCut(rest, p - |t|);
      j := j' + 1;
      assert rs[..j] == [rs[0]] + rest[..j'];
      assert ([rs[0]] + rest[..j'])[1..] == rest[..j'];
      assert Encode(rs[..j]) == t + Encode(rest[..j']);
    }
  }

  // ---------------------------------------------------------------------
  // The concurrent reader on whole lines.

  /** The lines the record loop should see: each reading under the hash of its name. */
  function LinesOf(rs: seq<Record>): seq<Line>
  {
    if rs == [] then [] else [Line(Hash(rs[0].name), rs[0].name, rs[0].value)] + LinesOf(rs[1..])
  }

  /** The record loop reads whole lines back as exactly their readings. */
  lemma {:induction false} ReadEncoded(rs: seq<Record>)
    requires WellFormed(rs)
    ensures Halts(Encode(rs)) && Lines(Encode(rs)) == LinesOf(rs)
  {
    if rs != [] {
      var r, rest := rs[0], rs[1..];
      assert WellFormed(rest) by {
        forall k | 0 <= k < |rest| ensures SEMI !in rest[k].name && NL !in rest[k].name {
          assert rest[k] == rs[k + 1];
        }
      }
      ReadEncoded(rest);
      var text := Render(r.value);
      assert NL !in text by {
        forall i | 0 <= i < |text| ensures text[i] != NL {
        }
      }
      assert Encode(rs) == r.name + [SEMI] + text + [NL] + Encode(rest);
      StepRecord(r.name, text, Encode(rest));
      ParseRender(r.value);
    }
  }

  /** Inserting the lines is inserting the readings under their names' hashes. */
  lemma {:induction false} InsertLinesAll(d: Dict, rs: seq<Record>)
    ensures InsertLines(d, LinesOf(rs)) == InsertAll(d, rs)
    decreases |rs|
  {
    if rs != [] {
      InsertLinesAll(Insert(d, Hash(rs[0].name), rs[0].name, rs[0].value), rs[1..]);
    }
  }

  lemma {:induction false} InsertAllConcat(d: Dict, a: seq<Record>, b: seq<Record>)
    ensures InsertAll(d, a + b) == InsertAll(InsertAll(d, a), b)
    decreases |a|
  {
    if a == [] {
      assert a + b == b;
    } else {
      assert (a + b)[1..] == a[1..] + b;
      InsertAllConcat(Insert(d, Hash(a[0].name), a[0].name, a[0].value), a[1..], b);
    }
  }

  // ---------------------------------------------------------------------
  // The baseline reader on whole lines.

  /** The lines the scanner should hand out: each line without its newline. */
  function Stripped(rs: seq<Record>): seq<seq<byte>>
  {
    if rs == [] then [] else [rs[0].name + [SEMI] + Render(rs[0].value)] + Stripped(rs[1..])
  }

  /** The scanner splits the file into exactly its lines. */
  lemma {:induction false} ScanEncoded(rs: seq<Record>)
    requires WellFormed(rs)
    ensures Baseline.ScanLines(Encode(rs)) == Stripped(rs)
  {
    if rs != [] {
      var r, rest := rs[0], rs[1..];
      assert WellFormed(rest) by {
        forall k | 0 <= k < |rest| ensures SEMI !in rest[k].name && NL !in rest[k].name {
          assert rest[k] == rs[k + 1];
        }
      }
      ScanEncoded(rest);
      var line := r.name + [SEMI] + Render(r.value);
      var data := Encode(rs);
      assert data == line + [NL] + Encode(rest);
      forall i | 0 <= i < |line| ensures data[i] != NL {
        TextNewline(r, i);
      }
      FindAt(data, NL, |line|);
      assert data[..|line|] == line;
      assert data[|line| + 1..] == Encode(rest);
    }
  }

  /** A stripped line parses back to its reading. */
  lemma ParseText(r: Record)
    requires SEMI !in r.name
    ensures Baseline.ParseLine(r.name + [SEMI] + Render(r.value)) == Success(r)
  {
    var text := Render(r.value);
    var line := r.name + [SEMI] + text;
    assert line[|r.name|] == SEMI;
    assert forall i :: 0 <= i < |r.name| ==> line[i] == r.name[i];
    FindAt(line, SEMI, |r.name|);
    assert line[..|r.name|] == r.name;
    assert line[|r.name| + 1..] == text;
    FindNone(text, SEMI);
    assert text[..|text|] == text;
    ParseRender(r.value);
  }

  /** The stripped lines parse back to the readings. */
  lemma {:induction false} ParseStripped(rs: seq<Record>)
    requires WellFormed(rs)
    ensures Baseline.Records(Stripped(rs)) == Success(rs)
  {
    if rs != [] {
      var rest := rs[1..];
      assert WellFormed(rest) by {
        forall k | 0 <= k < |rest| ensures SEMI !in rest[k].name && NL !in rest[k].name {
          assert rest[k] == rs[k + 1];
        }
      }
      ParseStripped(rest);
      ParseText(rs[0]);
      var lines := Stripped(rs);
      assert lines[0] == rs[0].name + [SEMI] + Render(rs[0].value);
      assert lines[1..] == Stripped(rest);
      assert Baseline.Records(lines) == Success([rs[0]] + rest);
      assert [rs[0]] + rest == rs;
    }
  }
}
