/**
 * The `publish` table as this program sees it: a query by piece CID
 * (`fetchPublishRecords`) and one INSERT per manifest record (`writeToDB`).
 * The table is an append-only sequence of rows; the database's failures
 * are supplied as fault functions, since they come from outside.
 */
module Store {
  import opened Wrappers
  import opened Manifest

  /** One row of the `publish` table (`PublishRecord`). */
  datatype PublishRecord = PublishRecord(pieceCid: string, ldn: string, minerId: string)

  /** The reason a query or an insert failed, as reported by the database. */
  datatype StoreError = StoreError(reason: string)

  /** A fetch: the rows stored for a piece CID, or the failure of the query. */
  type Fetch = string -> Result<seq<PublishRecord>, StoreError>

  /** Whether the database refuses an insert of `row` into `table`. */
  type InsertFault = (seq<PublishRecord>, PublishRecord) -> Option<StoreError>

  /** The rows whose piece CID equals `cid`, in table order. */
  function Lookup(table: seq<PublishRecord>, cid: string): (rows: seq<PublishRecord>)
    ensures |rows| <= |table|
    ensures forall k :: 0 <= k < |rows| ==> rows[k].pieceCid == cid
  {
    if |table| == 0 then []
    else (if table[0].pieceCid == cid then [table[0]] else []) + Lookup(table[1..], cid)
  }

  /** Querying a table made of two parts queries each part in turn. */
  lemma {:induction false} LookupAppend(a: seq<PublishRecord>, b: seq<PublishRecord>, cid: string)
    ensures Lookup(a + b, cid) == Lookup(a, cid) + Lookup(b, cid)
    decreases |a|
  {
    if |a| == 0 {
      assert a + b == b;
    } else {
      assert (a + b)[1..] == a[1..] + b;
      LookupAppend(a[1..], b, cid);
    }
  }

  /** A row is returned exactly when it is in the table with the queried CID. */
  lemma {:induction false} LookupMembers(table: seq<PublishRecord>, cid: string, row: PublishRecord)
    ensures row in Lookup(table, cid) <==> row in table && row.pieceCid == cid
    decreases |table|
  {
    if |table| > 0 {
      LookupMembers(table[1..], cid, row);
      assert table == [table[0]] + table[1..];
    }
  }

  /** The rows a query delivers when reading its result stops after
      `stop` rows (None: the result is read to its end). */
  function Delivered(rows: seq<PublishRecord>, stop: Option<nat>): (r: seq<PublishRecord>)
    ensures r <= rows
    ensures stop.None? ==> r == rows
    ensures stop.Some? && stop.value < |rows| ==> |r| == stop.value
  {
    match stop
    case None => rows
    case Some(n) => if n < |rows| then rows[..n] else rows
  }

  /** `fetchPublishRecords` against `table`. The query itself fails where
      `fault` says. Reading its rows may stop early where `cut` says, and
      because the loop never consults `rows.Err()` such a stop is not
      reported: the rows read so far come back as a success. */
  function TableFetch(table: seq<PublishRecord>, fault: string -> Option<StoreError>,
                      cut: string -> Option<nat>): Fetch {
    cid => if fault(cid).Some? then Failure(fault(cid).value)
           else Success(Delivered(Lookup(table, cid), cut(cid)))
  }

  /** A fetch fails only where the query fails; otherwise it succeeds with
      a prefix of the matching rows, all of them when reading is not cut. */
  lemma TableFetchPrefix(table: seq<PublishRecord>, fault: string -> Option<StoreError>,
                         cut: string -> Option<nat>, cid: string)
    ensures TableFetch(table, fault, cut)(cid).Failure? <==> fault(cid).Some?
    ensures TableFetch(table, fault, cut)(cid).Success? ==>
      TableFetch(table, fault, cut)(cid).value <= Lookup(table, cid)
    ensures cut(cid).None? && fault(cid).None? ==>
      TableFetch(table, fault, cut)(cid) == Success(Lookup(table, cid))
  {
  }

  /** The row inserted for a manifest record: its piece CID with the
      current LDN and miner ID. */
  function RowFor(r: Record, ldn: string, minerId: string): PublishRecord {
    PublishRecord(r.pieceCid, ldn, minerId)
  }

  /** The rows for a sequence of records, one each, in order. */
  function RowsFor(records: seq<Record>, ldn: string, minerId: string): seq<PublishRecord> {
    seq(|records|, k requires 0 <= k < |records| => RowFor(records[k], ldn, minerId))
  }

  /** The rows for two blocks of records are the first block's rows
      followed by the second's. */
  lemma RowsForAppend(a: seq<Record>, b: seq<Record>, ldn: string, minerId: string)
    ensures RowsFor(a + b, ldn, minerId) == RowsFor(a, ldn, minerId) + RowsFor(b, ldn, minerId)
  {
    var l := RowsFor(a + b, ldn, minerId);
    var r := RowsFor(a, ldn, minerId) + RowsFor(b, ldn, minerId);
    assert |l| == |r|;
    forall k | 0 <= k < |l|
      ensures l[k] == r[k]
    {
      if k < |a| {
        assert (a + b)[k] == a[k];
      } else {
        assert (a + b)[k] == b[k - |a|];
      }
    }
  }

  /** The table after a write, and the error that stopped it, if any. */
  datatype Written = Written(table: seq<PublishRecord>, error: Option<StoreError>)

  /** `writeToDB`: insert one row per record, in order, without checking for
      duplicates, and stop at the first insert the database refuses. Rows
      inserted before the failure stay in the table. */
  function WriteToDB(table: seq<PublishRecord>, records: seq<Record>, ldn: string, minerId: string,
                     fault: InsertFault): (w: Written)
    ensures |table| <= |w.table| <= |table| + |records|
    ensures w.table[..|table|] == table
    ensures w.table[|table|..] == RowsFor(records[..|w.table| - |table|], ldn, minerId)
    ensures w.error.None? <==> |w.table| == |table| + |records|
    ensures w.error.Some? ==>
      w.error == fault(w.table, RowFor(records[|w.table| - |table|], ldn, minerId))
    decreases |records|
  {
    if |records| == 0 then Written(table, None)
    else
      var row := RowFor(records[0], ldn, minerId);
      match fault(table, row)
      case Some(e) => Written(table, Some(e))
      case None =>
        var w := WriteToDB(table + [row], records[1..], ldn, minerId, fault);
        assert records[..|w.table| - |table|] == [records[0]] + records[1..][..|w.table| - |table| - 1];
        w
  }

  /** The rows of a non-empty prefix: the first record's row, then the rows
      of the rest of the prefix. */
  lemma RowsForPrefix(records: seq<Record>, ldn: string, minerId: string, j: nat)
    requires 0 < j <= |records|
    ensures RowsFor(records[..j], ldn, minerId)
         == [RowFor(records[0], ldn, minerId)] + RowsFor(records[1..][..j - 1], ldn, minerId)
  {
    assert records[..j] == [records[0]] + records[1..][..j - 1];
  }

  /** How many inserts the database accepts, one record after the other,
      before it refuses one (or the records run out). */
  function Accepted(table: seq<PublishRecord>, records: seq<Record>, ldn: string, minerId: string, fault: InsertFault): (n: nat)
    ensures n <= |records|
    decreases |records|
  {
    if |records| == 0 || fault(table, RowFor(records[0], ldn, minerId)).Some? then 0
    else 1 + Accepted(table + [RowFor(records[0], ldn, minerId)], records[1..], ldn, minerId, fault)
  }

  /** The write adds exactly as many rows as inserts were accepted. */
  lemma {:induction false} WriteCountsAccepted(table: seq<PublishRecord>, records: seq<Record>, ldn: string, minerId: string,
                                               fault: InsertFault)
    ensures |WriteToDB(table, records, ldn, minerId, fault).table| == |table| + Accepted(table, records, ldn, minerId, fault)
    decreases |records|
  {
    if |records| > 0 && fault(table, RowFor(records[0], ldn, minerId)).None? {
      WriteCountsAccepted(table + [RowFor(records[0], ldn, minerId)], records[1..], ldn, minerId, fault);
    }
  }

  /** Every one of the first Accepted(...) inserts was accepted, each seeing
      the table as left by the inserts before it. */
  lemma {:induction false} AcceptedBefore(table: seq<PublishRecord>, records: seq<Record>, ldn: string, minerId: string,
                                          fault: InsertFault, j: nat)
    requires j < Accepted(table, records, ldn, minerId, fault)
    ensures fault(table + RowsFor(records[..j], ldn, minerId), RowFor(records[j], ldn, minerId)).None?
    decreases |records|
  {
    var row := RowFor(records[0], ldn, minerId);
    if j == 0 {
      assert table + RowsFor(records[..0], ldn, minerId) == table by {
        assert records[..0] == [];
      }
    } else {
      var rest := records[1..];
      AcceptedBefore(table + [row], rest, ldn, minerId, fault, j - 1);
      RowsForPrefix(records, ldn, minerId, j);
      assert table + RowsFor(records[..j], ldn, minerId) == (table + [row]) + RowsFor(rest[..j - 1], ldn, minerId);
      assert records[j] == rest[j - 1];
    }
  }

  /** Every insert before the point where the write stopped was accepted
      by the database: together with WriteToDB's contract (the write stops
      at a refused insert, or completes), the write stops at the FIRST
      refused insert and completes exactly when no insert is refused. */
  lemma WriteAcceptedBefore(table: seq<PublishRecord>, records: seq<Record>, ldn: string, minerId: string,
                            fault: InsertFault, j: nat)
    requires j < |WriteToDB(table, records, ldn, minerId, fault).table| - |table|
    ensures fault(table + RowsFor(records[..j], ldn, minerId), RowFor(records[j], ldn, minerId)).None?
  {
    WriteCountsAccepted(table, records, ldn, minerId, fault);
    AcceptedBefore(table, records, ldn, minerId, fault, j);
  }

  /** A database that refuses the first insert leaves the table as it was
      and reports that refusal. */
  lemma WriteRefusedFirst(table: seq<PublishRecord>, records: seq<Record>, ldn: string, minerId: string,
                          fault: InsertFault, e: StoreError)
    requires |records| > 0
    requires fault(table, RowFor(records[0], ldn, minerId)) == Some(e)
    ensures WriteToDB(table, records, ldn, minerId, fault) == Written(table, Some(e))
  {
  }

  /** The database that accepts every insert. */
  function NoInsertFault(): InsertFault {
    (t, row) => None
  }

  /** With every insert accepted, the write appends exactly one row per
      record, in record order. */
  lemma WriteAllAppends(table: seq<PublishRecord>, records: seq<Record>, ldn: string, minerId: string)
    ensures WriteToDB(table, records, ldn, minerId, NoInsertFault())
         == Written(table + RowsFor(records, ldn, minerId), None)
  {
    var w := WriteToDB(table, records, ldn, minerId, NoInsertFault());
    assert records[..|records|] == records;
    assert w.table == w.table[..|table|] + w.table[|table|..];
  }

  /** Writing is not idempotent: writing the same records twice stores
      every row twice. */
  lemma WriteTwiceDoubles(table: seq<PublishRecord>, records: seq<Record>, ldn: string, minerId: string)
    ensures var once := WriteToDB(table, records, ldn, minerId, NoInsertFault()).table;
            var twice := WriteToDB(once, records, ldn, minerId, NoInsertFault()).table;
            twice == table + RowsFor(records, ldn, minerId) + RowsFor(records, ldn, minerId)
  {
    WriteAllAppends(table, records, ldn, minerId);
    WriteAllAppends(table + RowsFor(records, ldn, minerId), records, ldn, minerId);
  }

  /** After a complete write, a query sees the old rows for the CID followed
      by one new row for every record carrying that CID. */
  lemma LookupAfterWrite(table: seq<PublishRecord>, records: seq<Record>, ldn: string, minerId: string, cid: string)
    ensures Lookup(WriteToDB(table, records, ldn, minerId, NoInsertFault()).table, cid)
         == Lookup(table, cid) + Lookup(RowsFor(records, ldn, minerId), cid)
  {
    WriteAllAppends(table, records, ldn, minerId);
    LookupAppend(table, RowsFor(records, ldn, minerId), cid);
  }
}
