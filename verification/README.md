# Publish-record duplicate checker, modelled in Dafny

The program reads a manifest of Filecoin pieces. Each line holds a piece CID, a payload CID, a size and a CAR size. For each piece CID it looks up the rows of the `publish` table. Each row it reads is classified against the current LDN and miner ID. After a report, the program asks whether to save. If the answer is "yes" in any letter case, it inserts one `(piece_cid, miner_id, ldn)` row per manifest record.

The model is a pure pipeline over immutable values:

- `Text` (text.dfy): splitting a line into whitespace-separated fields (`strings.Fields`).
- `Manifest` (manifest.dfy): the `Record` type and the line filter of `parseFile`. A line with fewer than four fields is dropped. Any other line becomes one record built from fields 0 to 3.
- `Store` (store.dfy): the `PublishRecord` type, the table as an append-only `seq`, the query filter of `fetchPublishRecords`, and `writeToDB`. Database failures are fault functions passed in by the caller. `InsertFault` decides per insert, `Faults.query` decides whether the query for a CID fails, and `Faults.cut` decides whether reading its rows stops early. `fetchPublishRecords` never checks `rows.Err()`, so a read that stops early returns the rows read so far as a success; the model keeps that behaviour.
- `Classify` (classify.dfy): `checkDuplicates`. It is written both as a recursive function and as the nested loops of the source. The two are proved equal. The recursive version is also described against an independent reference, `Expected`, which says which CIDs each category list should hold.
- `Session` (session.dfy): the run in `main`. It parses, classifies, passes the confirmation gate `strings.ToLower(input) == "yes"`, then persists.
- `Wrappers` (wrappers.dfy): `Option` and `Result`.

The three categories are these:

- `AlreadyPublished`: same LDN and same miner.
- `OtherLdn`: a different LDN, whatever the miner.
- `Normal`: the fall-through case, same LDN with a different miner.

A record whose piece CID has no stored row adds nothing to any list: the inner loop at main.go:98 does not run, so such a record is not counted as normal either (`UnmatchedNowhere`, `TwoRecordsCheck`).

## Model

| member | source | states |
|---|---|---|
| Text.Fields | main.go:71 | every field produced is a non-empty run of non-space characters |
| Text.FieldsKeepNonSpace | main.go:71 | splitting loses exactly the white space: the fields concatenated equal the line with its white space removed |
| Text.FieldsSkipSpace | main.go:71 | leading white space of any length does not change the fields |
| Text.FieldsSplitAt | main.go:71 | one white-space character splits a line into two halves whose fields are split independently |
| Text.FieldsJoin | main.go:71 | fields written with single spaces split back into the same fields (round trip) |
| Manifest.ParseFormatLine | main.go:71-81 | a record written as a line, followed by any extra fields, reads back as the same record; fields 0..3 go to PieceCID, PayloadCID, Size, CarSize and extra fields are ignored |
| Manifest.ParseLineFields | main.go:72-80 | a line with fewer than 4 fields yields no record; a line with 4 or more yields exactly the record of its first four fields |
| Manifest.ParseLinesAppend | main.go:69-82 | reading two blocks of lines yields the records of the first block followed by those of the second |
| Manifest.ParseLinesOrigin | main.go:69-82 | record k is the parse of line RecordLines[k], and there are as many records as lines with at least 4 fields |
| Manifest.RecordLinesAscending | main.go:69-82 | the origin line indices strictly ascend, so records keep the line order |
| Manifest.RecordLinesExact | main.go:72-74 | a line index is an origin exactly when that line has at least 4 fields |
| Manifest.ParseFile | main.go:67-86 | the reader loop returns exactly the records of the functional reading |
| Store.Lookup | main.go:41-55 | a query returns only rows whose PieceCID equals the queried one, and no more rows than the table holds |
| Store.LookupMembers | main.go:41-55 | a row is returned exactly when it is in the table and carries the queried PieceCID |
| Store.TableFetchPrefix | main.go:40-57 | a fetch fails exactly when the query fails; otherwise it returns a prefix of the matching rows, all of them when reading is not cut short, because the loop never checks for a read error |
| Store.LookupAppend | main.go:41-55 | querying a table made of two parts returns the first part's matches, then the second's |
| Store.RowsForAppend | main.go:114-115 | the rows inserted for two blocks of records are the first block's rows followed by the second's |
| Store.WriteToDB | main.go:113-120 | rows already in the table are untouched; the new rows are (PieceCID, LDN, miner ID) for a prefix of the records, in order; the write is complete exactly when no insert failed; on failure the error is the one raised by the first refused insert, and earlier inserts remain |
| Store.WriteAcceptedBefore | main.go:114-118 | every insert before the point where the write stopped was accepted; with WriteToDB's contract, the write stops at the first refused insert and completes exactly when no insert is refused |
| Store.WriteRefusedFirst | main.go:114-118 | when the first insert is refused, the table is unchanged and that refusal is reported |
| Store.WriteAllAppends | main.go:113-120 | when every insert succeeds, the table grows by exactly one row per record, in record order |
| Store.WriteTwiceDoubles | main.go:113-120 | writing the same records twice stores every row twice: there is no duplicate check |
| Store.LookupAfterWrite | main.go:113-120 | after a complete write, a query returns the old rows followed by one new row per record carrying that CID |
| Classify.CategoryOf | main.go:99-104 | already published exactly when LDN and miner are both the current ones; other LDN exactly when the LDN differs; normal exactly when the LDN matches and the miner differs |
| Classify.CheckDuplicatesLoop | main.go:90-110 | the nested loops, with an early return on the first failed fetch, compute the same result as the recursive definition |
| Classify.CheckDuplicatesFailurePersists | main.go:93-96 | once a prefix of the records fails to classify, the whole run fails with the same error |
| Classify.AddRowsGet | main.go:98-107 | the inner loop appends the CID to each category once per row of that category, after what the list already held |
| Classify.AddRowsKeys | main.go:91-106 | the inner loop creates a category key only for a list it appends to |
| Classify.CheckDuplicatesSucceeds | main.go:92-96 | classification succeeds exactly when every record's fetch succeeds; otherwise there is no map |
| Classify.CheckDuplicatesFirstError | main.go:92-96 | a failed classification carries the error of the first record whose fetch failed |
| Classify.CheckDuplicatesGet | main.go:92-107 | each category lists CIDs in record order, and within a record once per row of that category in row order |
| Classify.CheckDuplicatesKeys | main.go:91-106 | a category key is present exactly when its list is non-empty |
| Classify.ReportSize | main.go:98-107 | every (record, row) pair adds exactly one entry to exactly one list, so the three lists together are as long as the total number of rows fetched |
| Classify.Membership | main.go:98-107 | a CID is listed under a category exactly when some record carries it and some row fetched for it falls into that category |
| Classify.UnmatchedNowhere | main.go:98 | a CID whose fetch returns no row appears in no category, not even normal |
| Session.ConfirmedExactly | main.go:166 | the gate accepts exactly the three-letter answers spelling "yes" in any mix of letter case |
| Session.ConfirmedExamples | main.go:166 | "yes", "Yes" and "YES" confirm; "y", "no" and the empty answer do not |
| Session.CutReadStillClassifies | main.go:49-56 | a read of query rows that stops early is not reported: classification still succeeds, on a prefix of each record's matching rows |
| Session.TableChangesOnlyOnYes | main.go:146-175 | the table changes only when classification succeeded and the answer confirmed |
| Session.RunBranches | main.go:146-175 | a failed fetch ends the run before the prompt; a declined answer aborts with the report; a confirmed answer writes |
| Session.ConfirmedRunAppends | main.go:166-172 | with a healthy database and a confirmed answer, the run appends one row per parsed record, including records reported as already published |
| Session.TwoLinesParse | main.go:69-82 | a two-line manifest reads as its two records, in line order |
| Session.TwoRecordsCheck | main.go:92-107 | with the first CID stored once under the current LDN and miner and the second CID stored nowhere, only the first is reported, as already published |
| Session.TwoRecordsRun | main.go:146-175 | the two-record run, confirmed with "Yes", reports one already-published CID and appends two rows |

## Left out

- Opening the file and `bufio.Scanner` behaviour are not modelled. This covers the maximum line length, read errors and the line-ending convention. The manifest is the sequence of lines already read.
- The connection to MySQL (`connectDB`, its DSN and credentials, `db.Close`) is not modelled. Query execution and row scanning in `fetchPublishRecords` are not modelled either. A query is the table filtered by piece CID. A failing query or `rows.Scan` is a fault value supplied by the caller. An iteration that stops early is a cut supplied by the caller.
- Store.Lookup: the model compares `piece_cid` exactly and case-sensitively. Under MySQL's default case-insensitive collations, `WHERE piece_cid = ?` also returns rows whose CID differs only in letter case, and `_general_ci` collations also ignore trailing spaces. This changes only which rows are found. The CID appended to a list is always the record's own.
- SQL gives no order for rows selected without `ORDER BY`. The model returns rows in table order. The classification lemmas hold for any order a fetch returns.
- Text.IsSpace: only the ASCII white space and the Latin-1 characters U+0085 and U+00A0 are treated as white space. `unicode.IsSpace` also accepts the other Unicode space characters.
- Session.ToLower lower-cases ASCII letters only. `strings.ToLower` also folds non-ASCII letters.
- Printing the report is not modelled, and neither is the count printed for the normal category. Go map iteration order is unspecified, and the output is formatting only.
- Command-line handling is not modelled: the usage message for fewer than three arguments, and how arguments are assigned to filename, LDN and miner ID. The LDN and miner ID are parameters.
- `fmt.Scanln` tokenisation is not modelled. The answer is the string it produced.
- `log.Fatalf` process termination is not modelled. The two fatal paths after parsing (main.go:149, main.go:170) become the `Outcome` constructors `CheckFailed` and `SaveFailed`, each carrying the error. The connection failure (main.go:136) and the file-read failure (main.go:143) are left out, as the lines above say.
- Faults: a query fault and a cut read are functions of the piece CID alone. When a manifest repeats a CID, every fetch of it has the same outcome. In the program each record issues its own query (main.go:93), so a transient failure or an early stop can affect one of those queries only.
