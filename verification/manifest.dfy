/**
 * The manifest reader (`parseFile` in main.go): every line with at least
 * four whitespace-separated fields becomes one record; shorter lines are
 * dropped without error. The file is modelled as its sequence of lines.
 */
module Manifest {
  import opened Wrappers
  import opened Text

  /** One manifest entry (`Record`): piece CID, payload CID, size, CAR size. */
  datatype Record = Record(pieceCid: string, payloadCid: string, size: string, carSize: string)

  /** The record a line yields, if it has enough fields. */
  function ParseLine(line: string): Option<Record> {
    var fs := Fields(line);
    if |fs| < 4 then None else Some(Record(fs[0], fs[1], fs[2], fs[3]))
  }

  /** The line is kept by the reader. */
  predicate WellFormed(line: string) {
    |Fields(line)| >= 4
  }

  /** The records a line contributes: zero or one. */
  function Emit(line: string): seq<Record> {
    match ParseLine(line)
    case None => []
    case Some(r) => [r]
  }

  /** The records read from `lines`, appended one line at a time. */
  function ParseLines(lines: seq<string>): seq<Record>
    decreases |lines|
  {
    if |lines| == 0 then []
    else ParseLines(lines[..|lines| - 1]) + Emit(lines[|lines| - 1])
  }

  /** Indices of the lines that yield a record, in ascending order. */
  function RecordLines(lines: seq<string>): seq<nat>
    decreases |lines|
  {
    if |lines| == 0 then []
    else RecordLines(lines[..|lines| - 1])
         + (if WellFormed(lines[|lines| - 1]) then [|lines| - 1] else [])
  }

  /** A line is the canonical text of a record followed by extra fields. */
  function FormatLine(r: Record, extra: seq<string>): string {
    Join([r.pieceCid, r.payloadCid, r.size, r.carSize] + extra)
  }

  /** Every field of the record is a non-empty run of non-space characters. */
  predicate Writable(r: Record) {
    IsField(r.pieceCid) && IsField(r.payloadCid) && IsField(r.size) && IsField(r.carSize)
  }

  /** Reading back a written record gives the same record, whatever extra
      fields follow the fourth: fields 0..3 land in order in the four
      record fields and the rest are ignored. */
  lemma ParseFormatLine(r: Record, extra: seq<string>)
    requires Writable(r)
    requires forall k :: 0 <= k < |extra| ==> IsField(extra[k])
    ensures ParseLine(FormatLine(r, extra)) == Some(r)
  {
    var ws := [r.pieceCid, r.payloadCid, r.size, r.carSize] + extra;
    FieldsJoin(ws);
  }

  /** A line with fewer than four fields yields nothing; one with four or
      more yields exactly the record built from its first four fields. */
  lemma ParseLineFields(ws: seq<string>)
    requires forall k :: 0 <= k < |ws| ==> IsField(ws[k])
    ensures |ws| < 4 ==> ParseLine(Join(ws)) == None
    ensures |ws| >= 4 ==> ParseLine(Join(ws)) == Some(Record(ws[0], ws[1], ws[2], ws[3]))
  {
    FieldsJoin(ws);
  }

  /** Reading a concatenation of two files reads each in turn. */
  lemma {:induction false} ParseLinesAppend(a: seq<string>, b: seq<string>)
    ensures ParseLines(a + b) == ParseLines(a) + ParseLines(b)
    decreases |b|
  {
    if |b| == 0 {
      assert a + b == a;
    } else {
      var b' := b[..|b| - 1];
      assert (a + b)[..|a + b| - 1] == a + b';
      assert (a + b)[|a + b| - 1] == b[|b| - 1];
      ParseLinesAppend(a, b');
    }
  }

  /** Record k comes from line RecordLines(lines)[k]: the records are the
      well-formed lines, parsed, and there are as many as such lines. */
  lemma {:induction false} ParseLinesOrigin(lines: seq<string>)
    ensures |ParseLines(lines)| == |RecordLines(lines)|
    ensures forall k :: 0 <= k < |RecordLines(lines)| ==>
      RecordLines(lines)[k] < |lines| && ParseLine(lines[RecordLines(lines)[k]]) == Some(ParseLines(lines)[k])
    decreases |lines|
  {
    if |lines| > 0 {
      var pre := lines[..|lines| - 1];
      ParseLinesOrigin(pre);
      assert forall i :: 0 <= i < |pre| ==> lines[i] == pre[i];
    }
  }

  /** The origin lines ascend, so the records keep the order of the lines. */
  lemma {:induction false} RecordLinesAscending(lines: seq<string>)
    ensures forall k :: 0 <= k < |RecordLines(lines)| ==> RecordLines(lines)[k] < |lines|
    ensures forall k, m :: 0 <= k < m < |RecordLines(lines)| ==> RecordLines(lines)[k] < RecordLines(lines)[m]
    decreases |lines|
  {
    if |lines| > 0 {
      RecordLinesAscending(lines[..|lines| - 1]);
    }
  }

  /** A line yields a record exactly when it has at least four fields:
      no well-formed line is skipped and no short line is used. */
  lemma {:induction false} RecordLinesExact(lines: seq<string>)
    ensures forall i :: 0 <= i < |lines| ==> (i in RecordLines(lines) <==> WellFormed(lines[i]))
    decreases |lines|
  {
    if |lines| > 0 {
      var pre := lines[..|lines| - 1];
      RecordLinesExact(pre);
      RecordLinesAscending(pre);
      assert forall i :: 0 <= i < |pre| ==> lines[i] == pre[i];
    }
  }

  /** The reader loop of `parseFile`, over lines already read. */
  method ParseFile(lines: seq<string>) returns (records: seq<Record>)
    ensures records == ParseLines(lines)
  {
    records := [];
    var i := 0;
    while i < |lines|
      invariant 0 <= i <= |lines|
      invariant records == ParseLines(lines[..i])
    {
      var fields := Fields(lines[i]);
      assert lines[..i + 1][..i] == lines[..i];
      if |fields| >= 4 {
        records := records + [Record(fields[0], fields[1], fields[2], fields[3])];
      }
      i := i + 1;
    }
    assert lines[..i] == lines;
  }
}
