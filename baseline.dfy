/**
 * The single-threaded program (baseline/baseline.go): scan the file line
 * by line, split each line at `;`, parse the value and update the
 * name-keyed table; then list, sort and print.
 */
module Baseline {
  import opened Bytes
  import opened Values
  import opened Stats
  import opened Tables
  import opened Results
  import opened Report

  // ---------------------------------------------------------------------
  // Lines, as `bufio.Scanner` with `ScanLines` hands them out.

  /** A line without a trailing carriage return. */
  function DropCR(line: seq<byte>): (r: seq<byte>)
    ensures r == line || (line == r + [CR])
  {
    if |line| > 0 && line[|line| - 1] == CR then line[..|line| - 1] else line
  }

  /**
   * The lines of the file: split after every newline, each stripped of
   * its newline and one carriage return before it; a last line without
   * a newline counts, an empty remainder after the last newline does not.
   */
  function ScanLines(data: seq<byte>): (lines: seq<seq<byte>>)
    ensures forall i :: 0 <= i < |lines| ==> NL !in lines[i]
    decreases |data|
  {
    if data == [] then []
    else
      var k := Find(data, NL);
      if k < |data| then [DropCR(data[..k])] + ScanLines(data[k + 1..])
      else [DropCR(data)]
  }

  /**
   * One line to a record (baseline/baseline.go:27-43): the name is the
   * text before the first `;`, the value is parsed from the text between
   * it and the next `;` (or the end). A line without `;` has no second
   * field and the program panics.
   */
  function ParseLine(line: seq<byte>): (r: Result<Record>)
    ensures r.Failure? <==> SEMI !in line
    ensures r.Success? ==> r.value.name + [SEMI] <= line && SEMI !in r.value.name
  {
    var k := Find(line, SEMI);
    if k == |line| then Failure("index out of range")
    else
      var field := line[k + 1..];
      assert line[..k] + [SEMI] == line[..k + 1];
      Success(Record(line[..k], Value(field[..Find(field, SEMI)])))
  }

  /** The table after the lines, in order, starting from `m`; or the panic that stops it. */
  function Fold(m: Table, lines: seq<seq<byte>>): (r: Result<Table>)
    ensures r.Failure? <==> exists i :: 0 <= i < |lines| && SEMI !in lines[i]
    ensures r.Success? ==> m.Keys <= r.value.Keys
    decreases |lines|
  {
    if lines == [] then Success(m)
    else if ParseLine(lines[0]).Failure? then Failure(ParseLine(lines[0]).reason)
    else Fold(Add(m, ParseLine(lines[0]).value), lines[1..])
  }

  /** The records of the lines, when every line has a `;`. */
  function Records(lines: seq<seq<byte>>): (r: Result<seq<Record>>)
    ensures r.Success? ==> |r.value| == |lines|
    decreases |lines|
  {
    if lines == [] then Success([])
    else if ParseLine(lines[0]).Failure? then Failure(ParseLine(lines[0]).reason)
    else
      var rest := Records(lines[1..]);
      if rest.Failure? then rest else Success([ParseLine(lines[0]).value] + rest.value)
  }

  /**
   * Folding the lines into a table is aggregating their records; it
   * fails exactly when some line has no `;`.
   */
  lemma {:induction false} FoldAggregates(m: Table, lines: seq<seq<byte>>)
    ensures Fold(m, lines).Success? <==> Records(lines).Success?
    ensures Fold(m, lines).Success? ==> Fold(m, lines).value == AddAll(m, Records(lines).value)
    ensures Records(lines).Success? <==> forall i :: 0 <= i < |lines| ==> SEMI in lines[i]
    decreases |lines|
  {
    if lines != [] {
      FoldAggregates(if ParseLine(lines[0]).Success? then Add(m, ParseLine(lines[0]).value) else m, lines[1..]);
      assert forall i :: 1 <= i < |lines| ==> lines[i] == lines[1..][i - 1];
    }
  }

  /**
   * The scan loop (baseline/baseline.go:22-55): each line is split,
   * its value parsed, and the name's aggregate created or updated.
   */
  method Aggregate(lines: seq<seq<byte>>) returns (r: Result<Table>)
    ensures r == Fold(map[], lines)
  {
    var m: Table := map[];
    for i := 0 to |lines|
      invariant Fold(m, lines[i..]) == Fold(map[], lines)
    {
      var line := lines[i];
      assert lines[i..][1..] == lines[i + 1..];
      var k := Find(line, SEMI);
      if k == |line| {
        return Failure("index out of range");
      }
      var name := line[..k];
      var field := line[k + 1..];
      var num := field[..Find(field, SEMI)];
      var val := ParseValue(num);
      assert ParseLine(line) == Success(Record(name, val));
      m := Add(m, Record(name, val));
    }
    r := Success(m);
  }

  /**
   * The whole program: aggregate the file's lines, list the names, sort
   * them and print the report; `mean` renders an average.
   */
  method Run(data: seq<byte>, mean: (int, int) -> seq<byte>) returns (out: Result<seq<byte>>)
    ensures Records(ScanLines(data)).Failure? ==> out.Failure?
    ensures Records(ScanLines(data)).Success? ==>
      out.Success? && Reports(out.value, Tables.Aggregate(Records(ScanLines(data)).value), mean)
  {
    var lines := ScanLines(data);
    var r := Aggregate(lines);
    FoldAggregates(map[], lines);
    if r.Failure? {
      return Failure(r.reason);
    }
    var m := r.value;
    var names := TableNames(m);
    var sorted := SortNames(names);
    PrintReports(names, m, mean);
    var text := Print(sorted, m, mean);
    out := Success(text);
  }
}
