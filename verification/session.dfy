/**
 * One run of the program (`main` in main.go) once its inputs are in hand:
 * read the manifest, classify its records against the table, show the
 * report, and insert the records only if the operator answers "yes" in
 * any letter case.
 */
module Session {
  import opened Wrappers
  import opened Text
  import opened Manifest
  import opened Store
  import opened Classify

  /** ASCII lower-casing of one character. */
  function LowerChar(c: char): char {
    if 'A' <= c <= 'Z' then (c as int + 32) as char else c
  }

  /** ASCII lower-casing of a string. */
  function ToLower(s: string): string {
    seq(|s|, i requires 0 <= i < |s| => LowerChar(s[i]))
  }

  /** The confirmation gate: the answer, lower-cased, is "yes". */
  predicate Confirmed(input: string) {
    ToLower(input) == "yes"
  }

  /** The gate accepts exactly the three-letter answers spelling "yes" in
      any mix of cases, and nothing else. */
  lemma ConfirmedExactly(input: string)
    ensures Confirmed(input) <==>
      |input| == 3 && input[0] in "yY" && input[1] in "eE" && input[2] in "sS"
  {
    if |input| == 3 {
      var t := ToLower(input);
      if Confirmed(input) {
        assert t[0] == 'y' && t[1] == 'e' && t[2] == 's';
      }
      if input[0] in "yY" && input[1] in "eE" && input[2] in "sS" {
        assert t == "yes";
      }
    }
  }

  /** Sample answers: "yes", "Yes" and "YES" confirm; "y", "no" and an
      empty answer do not. */
  lemma ConfirmedExamples()
    ensures Confirmed("yes") && Confirmed("Yes") && Confirmed("YES")
    ensures !Confirmed("y") && !Confirmed("no") && !Confirmed("")
  {
    ConfirmedExactly("yes");
    ConfirmedExactly("Yes");
    ConfirmedExactly("YES");
    ConfirmedExactly("y");
    ConfirmedExactly("no");
    ConfirmedExactly("");
  }

  /** Where the database fails: a query per piece CID, the reading of a
      query's rows per piece CID (after how many rows), and each insert. */
  datatype Faults = Faults(query: string -> Option<StoreError>, cut: string -> Option<nat>, insert: InsertFault)

  /** The fetch the run uses: the table queried under the given faults. */
  function FetchOf(table: seq<PublishRecord>, faults: Faults): Fetch {
    TableFetch(table, faults.query, faults.cut)
  }

  /** How a run ends. */
  datatype Outcome =
    | CheckFailed(error: StoreError)
    | Aborted(report: Groups)
    | Saved(report: Groups, table: seq<PublishRecord>)
    | SaveFailed(report: Groups, table: seq<PublishRecord>, error: StoreError)

  /** The table the run leaves behind. */
  function TableAfter(table: seq<PublishRecord>, o: Outcome): seq<PublishRecord> {
    match o
    case CheckFailed(_) => table
    case Aborted(_) => table
    case Saved(_, t) => t
    case SaveFailed(_, t, _) => t
  }

  /** The pipeline: parse, classify against the table, then persist the
      parsed records (not the classification) only on confirmation. */
  function Run(lines: seq<string>, table: seq<PublishRecord>, ldn: string, minerId: string,
               input: string, faults: Faults): Outcome
  {
    var records := ParseLines(lines);
    match CheckDuplicates(records, FetchOf(table, faults), minerId, ldn)
    case Failure(e) => CheckFailed(e)
    case Success(report) =>
      if !Confirmed(input) then Aborted(report)
      else
        var w := WriteToDB(table, records, ldn, minerId, faults.insert);
        match w.error
        case None => Saved(report, w.table)
        case Some(e) => SaveFailed(report, w.table, e)
  }

  /** The database that never fails. */
  function Healthy(): Faults {
    Faults(cid => None, cid => None, NoInsertFault())
  }

  /** Every query of the table succeeds when no query fault is set. */
  lemma HealthyFetches(records: seq<Record>, table: seq<PublishRecord>)
    ensures AllFetched(records, FetchOf(table, Healthy()))
  {
  }

  /** A read cut short is not an error: when no query fails, the run gets
      past classification whatever the cuts, and each record is classified
      on the rows actually read, a prefix of its matching rows. */
  lemma CutReadStillClassifies(records: seq<Record>, table: seq<PublishRecord>, cut: string -> Option<nat>,
                               insert: InsertFault, minerId: string, ldn: string)
    ensures var fetch := FetchOf(table, Faults(cid => None, cut, insert));
      && CheckDuplicates(records, fetch, minerId, ldn).Success?
      && forall k :: 0 <= k < |records| ==> fetch(records[k].pieceCid).value <= Lookup(table, records[k].pieceCid)
  {
    var noFault: string -> Option<StoreError> := cid => None;
    var fetch := FetchOf(table, Faults(noFault, cut, insert));
    assert fetch == TableFetch(table, noFault, cut);
    forall k | 0 <= k < |records|
      ensures fetch(records[k].pieceCid).Success?
      ensures fetch(records[k].pieceCid).value <= Lookup(table, records[k].pieceCid)
    {
      TableFetchPrefix(table, noFault, cut, records[k].pieceCid);
    }
    CheckDuplicatesSucceeds(records, fetch, minerId, ldn);
  }

  /** The table changes only when classification succeeded and the answer
      confirmed; every other run ends with the table as it was. */
  lemma TableChangesOnlyOnYes(lines: seq<string>, table: seq<PublishRecord>, ldn: string, minerId: string,
                              input: string, faults: Faults)
    ensures TableAfter(table, Run(lines, table, ldn, minerId, input, faults)) != table ==>
      Confirmed(input) && AllFetched(ParseLines(lines), FetchOf(table, faults))
  {
    CheckDuplicatesSucceeds(ParseLines(lines), FetchOf(table, faults), minerId, ldn);
  }

  /** Which way a run ends: a failed query ends it before the prompt; a
      declined answer aborts with the full report; a confirmed one writes. */
  lemma RunBranches(lines: seq<string>, table: seq<PublishRecord>, ldn: string, minerId: string,
                    input: string, faults: Faults)
    ensures var o := Run(lines, table, ldn, minerId, input, faults);
      && (o.CheckFailed? <==> !AllFetched(ParseLines(lines), FetchOf(table, faults)))
      && (o.Aborted? <==> AllFetched(ParseLines(lines), FetchOf(table, faults)) && !Confirmed(input))
      && (o.Saved? || o.SaveFailed? <==> AllFetched(ParseLines(lines), FetchOf(table, faults)) && Confirmed(input))
  {
    CheckDuplicatesSucceeds(ParseLines(lines), FetchOf(table, faults), minerId, ldn);
  }

  /** With a healthy database and a confirmed answer, the run stores one
      row (piece CID, LDN, miner ID) per parsed record, in order, after the
      existing rows, including records reported as already published. */
  lemma ConfirmedRunAppends(lines: seq<string>, table: seq<PublishRecord>, ldn: string, minerId: string, input: string)
    requires Confirmed(input)
    ensures Run(lines, table, ldn, minerId, input, Healthy()).Saved?
    ensures TableAfter(table, Run(lines, table, ldn, minerId, input, Healthy()))
         == table + RowsFor(ParseLines(lines), ldn, minerId)
  {
    var records := ParseLines(lines);
    HealthyFetches(records, table);
    CheckDuplicatesSucceeds(records, FetchOf(table, Healthy()), minerId, ldn);
    WriteAllAppends(table, records, ldn, minerId);
  }

  /** A two-line manifest written out from two records. */
  function TwoLines(a: Record, b: Record): seq<string> {
    [FormatLine(a, []), FormatLine(b, [])]
  }

  /** The two-line manifest reads as its two records, in line order. */
  lemma TwoLinesParse(a: Record, b: Record)
    requires Writable(a) && Writable(b)
    ensures ParseLines(TwoLines(a, b)) == [a, b]
  {
    var lines := TwoLines(a, b);
    ParseFormatLine(a, []);
    ParseFormatLine(b, []);
    assert lines[..1][..0] == [];
    assert ParseLines(lines[..0]) == [];
    assert ParseLines(lines[..1]) == [a];
    assert lines[..2] == lines;
  }

  /** Classifying two records whose first CID is stored once under the
      current LDN and miner, and whose second CID is stored nowhere: the
      first is already published and the second is listed nowhere (it is
      not counted as normal). */
  lemma TwoRecordsCheck(a: Record, b: Record, ldn: string, minerId: string)
    requires a.pieceCid != b.pieceCid
    ensures CheckDuplicates([a, b], FetchOf([PublishRecord(a.pieceCid, ldn, minerId)], Healthy()), minerId, ldn)
         == Success(map[AlreadyPublished := [a.pieceCid]])
  {
    var row := PublishRecord(a.pieceCid, ldn, minerId);
    var table := [row];
    var fetch := FetchOf(table, Healthy());
    assert Lookup(table, a.pieceCid) == table;
    assert Lookup(table, b.pieceCid) == [];
    assert [a][..0] == [];
    assert AddRows(map[], a.pieceCid, [row], minerId, ldn) == map[AlreadyPublished := [a.pieceCid]] by {
      assert [row][..0] == [];
      assert CategoryOf(row, minerId, ldn) == AlreadyPublished;
      assert AddRows(map[], a.pieceCid, [], minerId, ldn) == map[];
      assert Get(map[], AlreadyPublished) + [a.pieceCid] == [a.pieceCid];
    }
    assert CheckDuplicates([a], fetch, minerId, ldn) == Success(map[AlreadyPublished := [a.pieceCid]]);
    assert [a, b][..1] == [a];
  }

  /** The worked two-record run: the report lists the stored CID as
      already published and nothing else; confirming with "Yes" appends
      two rows, the stored CID again and the new one. */
  lemma TwoRecordsRun(a: Record, b: Record, ldn: string, minerId: string)
    requires Writable(a) && Writable(b) && a.pieceCid != b.pieceCid
    ensures var table := [PublishRecord(a.pieceCid, ldn, minerId)];
      var o := Run(TwoLines(a, b), table, ldn, minerId, "Yes", Healthy());
      && o.Saved?
      && o.report == map[AlreadyPublished := [a.pieceCid]]
      && o.table == table + [PublishRecord(a.pieceCid, ldn, minerId), PublishRecord(b.pieceCid, ldn, minerId)]
  {
    var table := [PublishRecord(a.pieceCid, ldn, minerId)];
    TwoLinesParse(a, b);
    TwoRecordsCheck(a, b, ldn, minerId);
    ConfirmedExamples();
    ConfirmedRunAppends(TwoLines(a, b), table, ldn, minerId, "Yes");
  }
}
