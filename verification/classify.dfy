/**
 * Duplicate classification (`checkDuplicates` in main.go). Every row the
 * store returns for a record's piece CID is put into one of three
 * categories, and the record's piece CID is appended to that category's
 * list. A record for which the store returns no row adds nothing.
 */
module Classify {
  import opened Wrappers
  import opened Manifest
  import opened Store

  /** The three report keys: "already published" (same LDN, same miner),
      "published by another LDN", and the fall-through "normal". */
  datatype Category = AlreadyPublished | OtherLdn | Normal

  /** The report: one list of piece CIDs per category that received any. */
  type Groups = map<Category, seq<string>>

  /** The category of one stored row, judged against the current miner and LDN. */
  function CategoryOf(row: PublishRecord, minerId: string, ldn: string): (c: Category)
    ensures c == AlreadyPublished <==> row.ldn == ldn && row.minerId == minerId
    ensures c == OtherLdn <==> row.ldn != ldn
    ensures c == Normal <==> row.ldn == ldn && row.minerId != minerId
  {
    if row.ldn == ldn && row.minerId == minerId then AlreadyPublished
    else if row.ldn != ldn then OtherLdn
    else Normal
  }

  /** The list under `c`; a missing key reads as the empty list. */
  function Get(g: Groups, c: Category): seq<string> {
    if c in g then g[c] else []
  }

  /** Append `cid` to the list under `c`, creating the key if needed. */
  function Add(g: Groups, c: Category, cid: string): Groups {
    g[c := Get(g, c) + [cid]]
  }

  /** The inner loop: one append of `cid` per returned row, in row order. */
  function AddRows(g: Groups, cid: string, rows: seq<PublishRecord>, minerId: string, ldn: string): Groups
    decreases |rows|
  {
    if |rows| == 0 then g
    else Add(AddRows(g, cid, rows[..|rows| - 1], minerId, ldn), CategoryOf(rows[|rows| - 1], minerId, ldn), cid)
  }

  /** `checkDuplicates`: classify every record in order; the first failing
      fetch makes the whole result that failure, with no partial report. */
  function CheckDuplicates(records: seq<Record>, fetch: Fetch, minerId: string, ldn: string): Result<Groups, StoreError>
    decreases |records|
  {
    if |records| == 0 then Success(map[])
    else
      var last := records[|records| - 1];
      match CheckDuplicates(records[..|records| - 1], fetch, minerId, ldn)
      case Failure(e) => Failure(e)
      case Success(g) =>
        match fetch(last.pieceCid)
        case Failure(e) => Failure(e)
        case Success(rows) => Success(AddRows(g, last.pieceCid, rows, minerId, ldn))
  }

  /** The loops of `checkDuplicates` as written: an outer loop over the
      records that returns on the first failed fetch, and an inner loop
      appending the record's CID once per returned row. */
  method CheckDuplicatesLoop(records: seq<Record>, fetch: Fetch, minerId: string, ldn: string)
    returns (r: Result<Groups, StoreError>)
    ensures r == CheckDuplicates(records, fetch, minerId, ldn)
  {
    var results: Groups := map[];
    var i := 0;
    while i < |records|
      invariant 0 <= i <= |records|
      invariant CheckDuplicates(records[..i], fetch, minerId, ldn) == Success(results)
    {
      var cid := records[i].pieceCid;
      assert records[..i + 1][..i] == records[..i];
      match fetch(cid)
      case Failure(e) =>
        CheckDuplicatesFailurePersists(records, fetch, minerId, ldn, i + 1);
        return Failure(e);
      case Success(rows) =>
        var start := results;
        var j := 0;
        while j < |rows|
          invariant 0 <= j <= |rows|
          invariant results == AddRows(start, cid, rows[..j], minerId, ldn)
        {
          assert rows[..j + 1][..j] == rows[..j];
          results := Add(results, CategoryOf(rows[j], minerId, ldn), cid);
          j := j + 1;
        }
        assert rows[..j] == rows;
      i := i + 1;
    }
    assert records[..i] == records;
    r := Success(results);
  }

  /** Once a prefix of the records fails to classify, so do all the records,
      with the same error. */
  lemma {:induction false} CheckDuplicatesFailurePersists(records: seq<Record>, fetch: Fetch, minerId: string, ldn: string, n: nat)
    requires n <= |records|
    requires CheckDuplicates(records[..n], fetch, minerId, ldn).Failure?
    ensures CheckDuplicates(records, fetch, minerId, ldn) == CheckDuplicates(records[..n], fetch, minerId, ldn)
    decreases |records| - n
  {
    if n < |records| {
      assert records[..n + 1][..n] == records[..n];
      CheckDuplicatesFailurePersists(records, fetch, minerId, ldn, n + 1);
    } else {
      assert records[..n] == records;
    }
  }

  // ---------------------------------------------------------------------
  // Reference description of the report

  /** The number of rows in `rows` that fall into category `c`. */
  function CountIn(rows: seq<PublishRecord>, c: Category, minerId: string, ldn: string): (n: nat)
    ensures n <= |rows|
  {
    if |rows| == 0 then 0
    else CountIn(rows[..|rows| - 1], c, minerId, ldn) + (if CategoryOf(rows[|rows| - 1], minerId, ldn) == c then 1 else 0)
  }

  /** `n` copies of `s`. */
  function Repeat(s: string, n: nat): (r: seq<string>)
    ensures |r| == n
    ensures forall k :: 0 <= k < n ==> r[k] == s
  {
    if n == 0 then [] else Repeat(s, n - 1) + [s]
  }

  /** Every record's piece CID can be fetched. */
  predicate AllFetched(records: seq<Record>, fetch: Fetch) {
    forall k :: 0 <= k < |records| ==> fetch(records[k].pieceCid).Success?
  }

  /** What the list under `c` should hold: for each record in order, its
      piece CID once for every fetched row that falls into `c`. */
  function Expected(records: seq<Record>, fetch: Fetch, c: Category, minerId: string, ldn: string): seq<string>
    requires AllFetched(records, fetch)
    decreases |records|
  {
    if |records| == 0 then []
    else
      var last := records[|records| - 1];
      Expected(records[..|records| - 1], fetch, c, minerId, ldn)
      + Repeat(last.pieceCid, CountIn(fetch(last.pieceCid).value, c, minerId, ldn))
  }

  /** Total number of rows fetched over all records. */
  function TotalMatches(records: seq<Record>, fetch: Fetch): nat
    requires AllFetched(records, fetch)
    decreases |records|
  {
    if |records| == 0 then 0
    else TotalMatches(records[..|records| - 1], fetch) + |fetch(records[|records| - 1].pieceCid).value|
  }

  /** The key of a category is present exactly when its list is non-empty,
      as for a Go map filled only by appends. */
  predicate KeysNonEmpty(g: Groups) {
    KeyPresent(g, AlreadyPublished) && KeyPresent(g, OtherLdn) && KeyPresent(g, Normal)
  }

  /** The key `c` is present exactly when its list is non-empty. */
  predicate KeyPresent(g: Groups, c: Category) {
    c in g <==> |Get(g, c)| > 0
  }

  // ---------------------------------------------------------------------
  // Properties

  /** The inner loop appends, to each category, the CID once per row of
      that category. */
  lemma {:induction false} AddRowsGet(g: Groups, cid: string, rows: seq<PublishRecord>, minerId: string, ldn: string, c: Category)
    ensures Get(AddRows(g, cid, rows, minerId, ldn), c) == Get(g, c) + Repeat(cid, CountIn(rows, c, minerId, ldn))
    decreases |rows|
  {
    if |rows| == 0 {
      assert Repeat(cid, 0) == [];
    } else {
      var pre := rows[..|rows| - 1];
      AddRowsGet(g, cid, pre, minerId, ldn, c);
      var h := AddRows(g, cid, pre, minerId, ldn);
      var d := CategoryOf(rows[|rows| - 1], minerId, ldn);
      assert AddRows(g, cid, rows, minerId, ldn) == Add(h, d, cid);
      var n := CountIn(pre, c, minerId, ldn);
      if c == d {
        assert CountIn(rows, c, minerId, ldn) == n + 1;
        assert Get(Add(h, d, cid), c) == Get(h, c) + [cid];
        assert Repeat(cid, n + 1) == Repeat(cid, n) + [cid];
      } else {
        assert CountIn(rows, c, minerId, ldn) == n;
        assert Get(Add(h, d, cid), c) == Get(h, c);
      }
    }
  }

  /** The inner loop creates a key only for a list it appends to. */
  lemma {:induction false} AddRowsKeys(g: Groups, cid: string, rows: seq<PublishRecord>, minerId: string, ldn: string)
    requires KeysNonEmpty(g)
    ensures KeysNonEmpty(AddRows(g, cid, rows, minerId, ldn))
    decreases |rows|
  {
    if |rows| > 0 {
      AddRowsKeys(g, cid, rows[..|rows| - 1], minerId, ldn);
    }
  }

  /** Classification succeeds exactly when every record's fetch succeeds. */
  lemma {:induction false} CheckDuplicatesSucceeds(records: seq<Record>, fetch: Fetch, minerId: string, ldn: string)
    ensures CheckDuplicates(records, fetch, minerId, ldn).Success? <==> AllFetched(records, fetch)
    decreases |records|
  {
    if |records| > 0 {
      var pre := records[..|records| - 1];
      CheckDuplicatesSucceeds(pre, fetch, minerId, ldn);
      assert forall k :: 0 <= k < |pre| ==> pre[k] == records[k];
    }
  }

  /** On success, category `c` lists, in record order and within a record
      in row order, the record's piece CID once per row of that category. */
  lemma {:induction false} CheckDuplicatesGet(records: seq<Record>, fetch: Fetch, minerId: string, ldn: string, c: Category)
    requires AllFetched(records, fetch)
    ensures CheckDuplicates(records, fetch, minerId, ldn).Success?
    ensures Get(CheckDuplicates(records, fetch, minerId, ldn).value, c) == Expected(records, fetch, c, minerId, ldn)
    decreases |records|
  {
    CheckDuplicatesSucceeds(records, fetch, minerId, ldn);
    if |records| > 0 {
      var pre := records[..|records| - 1];
      assert AllFetched(pre, fetch) by {
        assert forall k :: 0 <= k < |pre| ==> pre[k] == records[k];
      }
      CheckDuplicatesGet(pre, fetch, minerId, ldn, c);
      var last := records[|records| - 1];
      var g := CheckDuplicates(pre, fetch, minerId, ldn).value;
      AddRowsGet(g, last.pieceCid, fetch(last.pieceCid).value, minerId, ldn, c);
    }
  }

  /** On success, a category key is present only when its list is non-empty. */
  lemma {:induction false} CheckDuplicatesKeys(records: seq<Record>, fetch: Fetch, minerId: string, ldn: string)
    requires AllFetched(records, fetch)
    ensures CheckDuplicates(records, fetch, minerId, ldn).Success?
    ensures KeysNonEmpty(CheckDuplicates(records, fetch, minerId, ldn).value)
    decreases |records|
  {
    CheckDuplicatesSucceeds(records, fetch, minerId, ldn);
    if |records| > 0 {
      var pre := records[..|records| - 1];
      assert AllFetched(pre, fetch) by {
        assert forall k :: 0 <= k < |pre| ==> pre[k] == records[k];
      }
      CheckDuplicatesKeys(pre, fetch, minerId, ldn);
      var last := records[|records| - 1];
      var g := CheckDuplicates(pre, fetch, minerId, ldn).value;
      AddRowsKeys(g, last.pieceCid, fetch(last.pieceCid).value, minerId, ldn);
    }
  }

  /** Index of the first record whose fetch fails. */
  predicate FirstFailure(records: seq<Record>, fetch: Fetch, i: nat) {
    i < |records| && fetch(records[i].pieceCid).Failure?
    && forall k :: 0 <= k < i ==> fetch(records[k].pieceCid).Success?
  }

  /** A failing classification reports the error of the first record whose
      fetch fails; later records are never looked at. */
  lemma {:induction false} CheckDuplicatesFirstError(records: seq<Record>, fetch: Fetch, minerId: string, ldn: string, i: nat)
    requires FirstFailure(records, fetch, i)
    ensures CheckDuplicates(records, fetch, minerId, ldn) == Failure(fetch(records[i].pieceCid).error)
    decreases |records|
  {
    var pre := records[..|records| - 1];
    if i < |pre| {
      assert FirstFailure(pre, fetch, i);
      CheckDuplicatesFirstError(pre, fetch, minerId, ldn, i);
    } else {
      assert AllFetched(pre, fetch);
      CheckDuplicatesSucceeds(pre, fetch, minerId, ldn);
    }
  }

  lemma {:induction false} CountInPartition(rows: seq<PublishRecord>, minerId: string, ldn: string)
    ensures CountIn(rows, AlreadyPublished, minerId, ldn) + CountIn(rows, OtherLdn, minerId, ldn)
          + CountIn(rows, Normal, minerId, ldn) == |rows|
    decreases |rows|
  {
    if |rows| > 0 {
      CountInPartition(rows[..|rows| - 1], minerId, ldn);
    }
  }

  lemma {:induction false} ExpectedLength(records: seq<Record>, fetch: Fetch, minerId: string, ldn: string)
    requires AllFetched(records, fetch)
    ensures |Expected(records, fetch, AlreadyPublished, minerId, ldn)| + |Expected(records, fetch, OtherLdn, minerId, ldn)|
          + |Expected(records, fetch, Normal, minerId, ldn)| == TotalMatches(records, fetch)
    decreases |records|
  {
    if |records| > 0 {
      var pre := records[..|records| - 1];
      assert AllFetched(pre, fetch) by {
        assert forall k :: 0 <= k < |pre| ==> pre[k] == records[k];
      }
      ExpectedLength(pre, fetch, minerId, ldn);
      CountInPartition(fetch(records[|records| - 1].pieceCid).value, minerId, ldn);
    }
  }

  /** Every (record, row) pair adds exactly one entry to exactly one list:
      the three lists together are as long as the number of rows fetched. */
  lemma ReportSize(records: seq<Record>, fetch: Fetch, minerId: string, ldn: string)
    requires AllFetched(records, fetch)
    ensures CheckDuplicates(records, fetch, minerId, ldn).Success?
    ensures var g := CheckDuplicates(records, fetch, minerId, ldn).value;
      |Get(g, AlreadyPublished)| + |Get(g, OtherLdn)| + |Get(g, Normal)| == TotalMatches(records, fetch)
  {
    CheckDuplicatesGet(records, fetch, minerId, ldn, AlreadyPublished);
    CheckDuplicatesGet(records, fetch, minerId, ldn, OtherLdn);
    CheckDuplicatesGet(records, fetch, minerId, ldn, Normal);
    ExpectedLength(records, fetch, minerId, ldn);
  }

  /** A CID lands in category `c` exactly when some record carries it and
      one of the rows fetched for it falls into `c`. */
  lemma {:induction false} ExpectedMembers(records: seq<Record>, fetch: Fetch, c: Category, minerId: string, ldn: string, cid: string)
    requires AllFetched(records, fetch)
    ensures cid in Expected(records, fetch, c, minerId, ldn) <==>
      exists k :: 0 <= k < |records| && records[k].pieceCid == cid && CountIn(fetch(cid).value, c, minerId, ldn) > 0
    decreases |records|
  {
    if |records| > 0 {
      var pre := records[..|records| - 1];
      assert forall k :: 0 <= k < |pre| ==> pre[k] == records[k];
      ExpectedMembers(pre, fetch, c, minerId, ldn, cid);
      var last := records[|records| - 1];
      var n := CountIn(fetch(last.pieceCid).value, c, minerId, ldn);
      if n > 0 && last.pieceCid == cid {
        assert cid == Repeat(last.pieceCid, n)[0];
      }
    }
  }

  /** A row of category `c` is among the fetched rows exactly when the count is positive. */
  lemma {:induction false} CountInPositive(rows: seq<PublishRecord>, c: Category, minerId: string, ldn: string)
    ensures CountIn(rows, c, minerId, ldn) > 0 <==> exists j :: 0 <= j < |rows| && CategoryOf(rows[j], minerId, ldn) == c
    decreases |rows|
  {
    if |rows| > 0 {
      var pre := rows[..|rows| - 1];
      CountInPositive(pre, c, minerId, ldn);
      assert forall j :: 0 <= j < |pre| ==> pre[j] == rows[j];
    }
  }

  /** A piece CID is listed under `c` if and only if some record carries it
      and some row fetched for it falls into `c`. In particular a record
      whose fetch returns no row appears in no category at all (it is not
      counted as "normal"). */
  lemma Membership(records: seq<Record>, fetch: Fetch, minerId: string, ldn: string, c: Category, cid: string)
    requires AllFetched(records, fetch)
    ensures CheckDuplicates(records, fetch, minerId, ldn).Success?
    ensures cid in Get(CheckDuplicates(records, fetch, minerId, ldn).value, c) <==>
      (exists k :: 0 <= k < |records| && records[k].pieceCid == cid)
      && (exists j :: 0 <= j < |fetch(cid).value| && CategoryOf(fetch(cid).value[j], minerId, ldn) == c)
  {
    CheckDuplicatesGet(records, fetch, minerId, ldn, c);
    ExpectedMembers(records, fetch, c, minerId, ldn, cid);
    if exists k :: 0 <= k < |records| && records[k].pieceCid == cid {
      CountInPositive(fetch(cid).value, c, minerId, ldn);
    }
  }

  /** A piece CID whose fetch returns no row is in no list. */
  lemma UnmatchedNowhere(records: seq<Record>, fetch: Fetch, minerId: string, ldn: string, cid: string)
    requires AllFetched(records, fetch)
    requires fetch(cid) == Success([])
    ensures CheckDuplicates(records, fetch, minerId, ldn).Success?
    ensures forall c :: cid !in Get(CheckDuplicates(records, fetch, minerId, ldn).value, c)
  {
    forall c
      ensures cid !in Get(CheckDuplicates(records, fetch, minerId, ldn).value, c)
    {
      Membership(records, fetch, minerId, ldn, c, cid);
    }
  }
}
