# Verified model of the Aptos ETL

This project models the parts of the Aptos ETL on which its data guarantees rest, and proves those guarantees in
Dafny 4.11. `dafny verify dfyconfig.toml` checks the whole project.

The system is a coordinated, at-least-once pipeline. A coordinator polls the ledger and publishes ranges of versions.
Competing workers pull a range, extract its transactions from a stream, publish eight tables, and ack or nack. A daily
backfill republishes missing versions, and a daily MERGE removes duplicate rows. The modules follow these parts:

| files | part |
|---|---|
| `Protocol`, `ProtocolLaws`, `ProtocolCycle` | the range protocol as a labelled transition system, its invariant over all runs, one row per expected row after the MERGEs, and the daily cycle on runs |
| `ProtocolWorker`, `ProtocolBatching` | the worker's loop and the file batcher as refinements of the protocol's steps |
| `Coordinator`, `Resumption` | range slicing and polling, exact coverage, and stops, crashes and resumptions |
| `Backfill` | hole finding and run grouping |
| `Dedupe`, `KeyLaws` | the MERGE; which rows its keys tell apart |
| `Tables`, `RowLaws` | the simple per-transaction extraction; when it succeeds and what every row holds, said of the message |
| `Extraction` (module `RangeExtraction`) | the stream loop that refines it |
| `Batching`, `BatchingLaws`, `BucketLaws` | the half-hour file batcher: conservation, placement, paths; the bucket after any interleaving of attempts, and the hourly load from it |
| `MoveTypes`, `MoveTypeParsing`, `Address` | Move type printing and a parser that undoes it; address repair |
| `Signatures`, `SignatureRoles`, `SignatureLaws`, `Deferred` | multi-key joins, roles, which key and signature every row carries, and values filled in later |
| `Changes`, `WriteSetLaws` | the write set split into sub-tables, and its aggregate, said of the write set itself |
| `PubSub` | the chunked publisher |
| `Modfile`, `ModfilePrinting`, `ModfileReading` | the module trie, the mod file's text, and a reader that undoes it |
| `Wrappers`, `Text`, `Sequences` | shared helpers |

Code that changes state step by step is a method or a class with the source's fields, proved equal to a specification
function of the same inputs (`Batching.Bucket.PublishBatch` and `Batching.Batch`, `RangeExtraction.ExtractRange` and
`RangeExtraction.RunRange`, `Coordinator.Process.Poll` and `Coordinator.Chunks`, and so on). What the system promises
is proved as lemmas about those functions. Failures of the outside world (refused uploads, lost replies, broken
streams, server answers) are inputs over which every result quantifies.

Every lemma carries `{:induction false}`: its proof rests on the steps written in it and on no automatic induction.

Where the code does not keep a promise on every input, the exact condition under which it does is proved, beside a
concrete counterexample where one helps:

- An intermediate upload that is refused loses records, because the batcher drains its buffer inside the retry loop
  (`BatchingLaws.ConservesExactly`, `ProtocolBatching.BatchLands`). The call returns all the same and the worker acks, so
  no later attempt comes unless the message was delivered twice (`ProtocolWorker.LossyAckLosesExactly`,
  `ProtocolLaws.NoRangeIsLost`, `Protocol.ShortAckKeepsExactly`). If one comes and is not refused, it repairs the bucket
  (`BucketLaws.CleanBucketExactly`).
- A stream that runs dry, or an empty first response for a single version, ends in success without rows
  (`RangeExtraction.ExhaustedPublishesNothing`, `RangeExtraction.PublishedExactlyUnlessEmptyFirst`), and the worker
  acks it (`ProtocolWorker.AckAfterPublishesExactly`, `Protocol.ShortAckKeepsExactly`).
- A poll that advances by exactly one publishes nothing, and interior chunk starts are extracted twice
  (`Coordinator.CoverageIsExact`); the backfill finds the first kind unless it lies at an end of the interval
  (`ProtocolCycle.BackfillHealsSkips`). A poll that goes back makes the next one publish again
  (`Coordinator.CoversStartAgainExactly`, `Resumption.CoversSavedAgainExactly`).
- A signal between serialising and publishing a range loses what was not covered before
  (`Resumption.GapSignalLosesExactly`).
- The backfill drops the ranges after a publish that fails, without an error (`Backfill.SentCoverExactly`).
- MERGEs keep every row exactly when the rows' keys are distinct (`ProtocolLaws.MergesLeaveExpectedExactly`), which the
  signatures key does not ensure (`Dedupe.SignatureKeyIsNotPositional`, `ProtocolLaws.KeysDistinctPerTransaction`).
- Printed Move types are unambiguous for names without delimiters (`MoveTypeParsing.PrintedTypesUnambiguous`,
  `MoveTypeParsing.DelimiterInNameIsAmbiguous`), and mod files read back for identifiers
  (`ModfileReading.ModfileReadsBackExactly`, `ModfileReading.BracesInNameMisread`).

The comments of `range_generator` speak of 1000 values and disjoint ranges; the code uses a step of 999 and ranges that
workers read with both ends included. The model follows the code.

## Model

| member | source | states |
|---|---|---|
| Protocol.RunsKeepInv | extractor_transformer/src/aptos_config/mod.rs:513-566 | Over every run of the range protocol (sends, pulls, part, whole and lossy table publishes, acks, nacks, lost replies, crashes, redeliveries, MERGEs, acks on streams that ran dry) with any number of workers and any table options: every table holds only expected rows of versions some message asks for, each job's published tables hold its message unless a publish lost rows, every message some worker published without loss is held by all eight tables, and every acked message is one of those or was acked short |
| Protocol.StepKeepsInv | extractor_transformer/src/aptos_config/mod.rs:513-566 | Each single step keeps that invariant; acks only add their messages to those published without loss, or to those acked after publishing less than their rows |
| Protocol.ShortAckKeepsExactly | extractor_transformer/src/aptos_config/mod.rs:542-564 | An ack that comes short, on a dry stream or after a lossy publish, may count its message as published without loss if and only if every table holds the message anyway |
| Protocol.RepliesAndFailures | extractor_transformer/src/aptos_config/mod.rs:513-566 | In any state: a worker can crash, a message be redelivered, a nack or dry ack given before anything is published and an ack after all eight tables, and each reply be lost; none touches anything but that job and that message |
| Protocol.IdleWorkerPulls | extractor_transformer/src/aptos_config/mod.rs:519-541 | An idle worker takes any deliverable message and does nothing else |
| ProtocolBatching.BatchLands | extractor_transformer/src/output/gcs.rs:132-183 | The files of a worker's table publish hold some of its rows, whatever is refused and also when the call panics; when it returns, they hold all of them if and only if no intermediate flush was refused |
| ProtocolBatching.BatchIsPublishStep | extractor_transformer/src/output/gcs.rs:60-223 | A batcher call that panics is the protocol's part publish, one that returns its lossy publish; that step is the lossless one if and only if no intermediate flush is refused |
| Protocol.WorkerBuffersHoldMessageRows | extractor_transformer/src/aptos_config/mod.rs:677-1012 | On any stream that delivers the chain's versions `start..end` in order, the loop's buffers hold, table by table, the message's rows that the protocol's publish step adds |
| Protocol.MessageRowsExactly | extractor_transformer/src/aptos_config/mod.rs:539-540 | A message's rows are the expected rows of exactly the versions in `[start, end]`, both ends included, for the tables its options ask for |
| ProtocolLaws.NoRangeIsLost | extractor_transformer/src/aptos_config/mod.rs:513-566 | In every run every message is deliverable, in flight, or acked with a row for every one of its rows' keys in every table, or all its acks came short: on streams that ran dry or after publishes that lost rows |
| ProtocolLaws.LosslessRunsLoseNothing | extractor_transformer/src/aptos_config/mod.rs:513-566 | In runs without acks on dry streams and without lossy publishes there is no such exception |
| ProtocolLaws.EmptyAckLosesRange | extractor_transformer/src/aptos_config/mod.rs:690-697 | Counterexample for streams that run dry: the message is acked and its transactions rows are missing |
| ProtocolLaws.QuiescentRunSettles | extractor_transformer/src/aptos_config/mod.rs:513-566 | Once every message is acked, none short only, every table is sound and holds every message |
| ProtocolLaws.SettledCopies | extractor_transformer/src/aptos_config/mod.rs:513-566 | Such a table, of any kind, holds copies of exactly the expected rows when their keys are distinct |
| ProtocolLaws.MergesLeaveExpectedRows | daily_qc_airflow/daily_dedupe_mainnet.py:73-87 | Main result: after such a run, MERGEs over any list of days leave every expected row of those days exactly once and nothing else in them, and rows of other days as they were, whatever duplicates the run produced and whichever duplicate a MERGE picks, when the expected rows' keys are distinct |
| ProtocolLaws.MergesLeaveExpectedExactly | daily_qc_airflow/daily_dedupe_mainnet.py:73-87 | When the days together hold the expected rows, a table of any kind ends as exactly the list of expected rows if and only if it held each of them and no day holds two of one key; where rows of one key share their days, that is if and only if the keys are distinct |
| ProtocolLaws.OneRowForEveryKey | daily_qc_airflow/daily_dedupe_mainnet.py:75-82 | With no condition on keys: after a MERGE every expected row of the day has exactly one row of its key, once, itself an expected row; for blocks, when all rows of that height lie in the day, which holds by itself elsewhere |
| ProtocolLaws.KeysDistinctPerTransaction | daily_qc_airflow/daily_dedupe_mainnet.py:33-42 | For every table but blocks, signatures included, the expected rows' keys are distinct if and only if each transaction's own rows have distinct keys |
| ProtocolLaws.KeysDistinctByHeight | daily_qc_airflow/daily_dedupe_mainnet.py:35 | For blocks the keys are distinct if and only if no two wanted block-metadata transactions share a height |
| ProtocolLaws.KeysAreDistinct | daily_qc_airflow/daily_dedupe_mainnet.py:33-42 | So the six positional tables need no condition, blocks need a ledger of distinct heights, signatures distinct keys in each transaction |
| ProtocolCycle.BackfillCoversInterval | daily_qc_airflow/daily_backfill_mainnet.py:67-127 | On runs: whatever transactions rows the backfill's query finds at some point, the messages at the end, once its ranges are among them, ask for every version from the first to the last one found |
| ProtocolCycle.DailyCycleIsComplete | daily_qc_airflow/daily_dedupe_mainnet.py:73-87 | The whole cycle on runs: query at some point of a run, backfill ranges sent later, every message acked, MERGEs over any days; then each version of the interval has its transactions row and no other row, exactly once if its time lies in one of the days |
| ProtocolCycle.BackfillHealsSkips | daily_qc_airflow/daily_backfill_mainnet.py:67-90 | After a run that acked the ranges of the coordinator's polls, the backfill's ranges hold exactly the versions of the interval that the polls passed over or whose rows lie outside the queried window |
| ProtocolCycle.BackfillSendsExactlySkips | daily_qc_airflow/daily_backfill_mainnet.py:67-90 | On a ledger of ascending times they hold exactly the passed-over poll values |
| ProtocolWorker.SubscribeAndExtract | extractor_transformer/src/aptos_config/mod.rs:513-566 | The worker loop over deliveries that carry the stream their extraction reads: failed and empty pulls are retried, a message is extracted by `extract_range` itself, whose error nacks and ends the worker and whose success acks; the steps, the publishes and the failure flag are the specification's |
| ProtocolWorker.ExtractedExactly | extractor_transformer/src/aptos_config/mod.rs:677-697 | On a stream that follows the chain as far as it goes, extraction yields rows if and only if the stream passes the end and every version extracts, and success without rows if and only if it runs dry cleanly or stops empty |
| ProtocolWorker.AckAfterPublishesExactly | extractor_transformer/src/aptos_config/mod.rs:542-564 | An ack comes after the publishes of all tables in the first case only, and directly after the pull, with nothing published, in the second case only |
| ProtocolWorker.AcksFollowPublishes | extractor_transformer/src/aptos_config/mod.rs:909-1012 | In the whole loop every ack of the first kind comes right after the publishes of all eight tables of the message pulled before them, and every ack of the second kind right after its pull |
| ProtocolWorker.EmptyAcksExactly | extractor_transformer/src/aptos_config/mod.rs:690-697 | The loop acks a message with nothing published if and only if some stream it reads, before an error ends it, runs dry or stops empty |
| ProtocolWorker.WorkerRuns | extractor_transformer/src/aptos_config/mod.rs:513-566 | Main refinement: the whole loop, short acks included, is a run of the protocol that leaves the worker idle and sends nothing, adds to every table what lands of the rows the loop hands to the publisher, and leaves every delivered message acked, deliverable or outstanding as its extraction and reply ended, and the others unchanged |
| ProtocolWorker.WorkerPublishesWhatItAdds | extractor_transformer/src/aptos_config/mod.rs:909-1012 | When nothing is lost on the way, each table gains exactly the rows the loop hands to the publisher for it |
| ProtocolWorker.LossyAckLosesExactly | extractor_transformer/src/aptos_config/mod.rs:542-564 | For any rows that land of a message's publishes there is a run that acks it with just those in the tables; a table whose rows have distinct keys then holds the message if and only if none of its rows was lost |
| ProtocolWorker.JobRuns | extractor_transformer/src/aptos_config/mod.rs:542-564 | From any state, an idle worker can take a deliverable message that can be extracted through to its ack, changing no other message or job; every table gains what lands of its publish |
| ProtocolWorker.QuiescentRunExists | extractor_transformer/src/aptos_config/mod.rs:513-566 | For any messages there are a ledger and a run that acks them all with their rows, so the promises about such runs are not empty |
| Coordinator.Process.Poll | indexing_coordinator/publish_ranges.py:144-162 | One poll publishes the chunks from `last_indexed_end + 1` to the ledger version, remembers the last one serialised, and moves `last_indexed_end` to the ledger version |
| Coordinator.Process.constructor | indexing_coordinator/publish_ranges.py:103-133 | Start-up resumes at the end of the pulled range, or at -1 when no message came |
| Coordinator.Process.HandleSignal | indexing_coordinator/publish_ranges.py:32-44 | What a signal saves is the range published last, over any polls; it fails its assertion if and only if nothing was published |
| Coordinator.ChunksExactly | indexing_coordinator/publish_ranges.py:87-97 | Piece i starts 999 i values after the first and ends where the next starts, the last at the end; their number follows |
| Coordinator.ChunksCount | indexing_coordinator/publish_ranges.py:87-97 | Read with both ends included, the half-open chunks of step 999 cover every version of `[start, end]` once and every interior chunk start twice |
| Coordinator.CoverageIsExact | indexing_coordinator/publish_ranges.py:143-162 | For polls that never go back, a version between two polled values is covered 0 times if the poll advanced by exactly one, twice at an interior chunk start, once otherwise |
| Coordinator.OutsideUncovered | indexing_coordinator/publish_ranges.py:143-162 | Nothing at or below the starting point or past the last poll is covered |
| Coordinator.CoveredExactly | indexing_coordinator/publish_ranges.py:143-162 | The covered versions are exactly those up to the last poll, minus the poll values that advanced by exactly one |
| Coordinator.CoversStartAgainExactly | indexing_coordinator/publish_ranges.py:143-162 | For any polls, also ones that go back: a range reaching down to the starting point is published if and only if some poll reported a version behind it and a later one advanced from there by more than one |
| Resumption.RunsKeepInv | indexing_coordinator/publish_ranges.py:32-44 | Over any sequence of polls, stops, crashes, signals at any moment and restarts, every version up to the last indexed end and up to the end of every saved message is covered, or was passed over by a one-step poll, or lies in a range that a signal saved before it was published |
| Resumption.NothingLost | indexing_coordinator/publish_ranges.py:103-162 | The same promise for one version of any run: resuming loses nothing but what those two cases name |
| Resumption.CoversSavedAgainExactly | indexing_coordinator/publish_ranges.py:118-162 | In any run, the process publishes something at or below the point it resumed from, which the saved range covers or precedes, if and only if it publishes for a poll made after the node had reported a version behind that point |
| Resumption.SavedRangeNotCoveredAgain | indexing_coordinator/publish_ranges.py:118-129 | So as long as the node never reports a version behind it, a process publishes only past the point it resumed from |
| Resumption.GapSignalLosesExactly | indexing_coordinator/publish_ranges.py:152-159 | In any run, a signal between serialising and publishing, and a resumption from what it saved: the process continues after the range, of whose versions exactly those covered before are covered; none, when everything published so far ends before it |
| Resumption.GapSignalLosesVersions | indexing_coordinator/publish_ranges.py:152-159 | Counterexample: such a signal, then a resumption, and versions 0 to 100 are never published |
| Resumption.PollIsItsSteps | indexing_coordinator/publish_ranges.py:153-162 | An uninterrupted poll of the transition system publishes and remembers what `Process.Poll` does |
| Resumption.StopsAndStarts | indexing_coordinator/publish_ranges.py:32-44 | A running process can be stopped or crash at any moment and a stopped one started from any saved message; published ranges stay, and only a signal saves one |
| Backfill.GroupRanges | daily_qc_airflow/daily_backfill_mainnet.py:101-119 | The grouping loop, with its `for`/`else`, computes the runs of its input |
| Backfill.PublishMissing | daily_qc_airflow/daily_backfill_mainnet.py:67-129 | The steps chained: an empty query result raises an index error; any other publishes the runs of the missing versions in order up to the first publish that raises, which `finally` swallows |
| Backfill.SentCoverExactly | daily_qc_airflow/daily_backfill_mainnet.py:121-129 | What is sent covers exactly the missing versions before the range whose publish raises first, so all of them if and only if none raises |
| Backfill.RangesAreTheMissingRuns | daily_qc_airflow/daily_backfill_mainnet.py:83-119 | The published ranges are sorted, disjoint and not adjacent, and hold exactly the versions between the first and last present that are not present |
| Backfill.RangesFillAndAreMaximal | daily_qc_airflow/daily_backfill_mainnet.py:67-119 | The versions just before and just after every range are present, and ranges and present versions together fill the interval |
| Backfill.RangesAreFewest | daily_qc_airflow/daily_backfill_mainnet.py:101-119 | Any other ranges holding exactly the missing versions are at least as many |
| Dedupe.BigQueryTable.Merge | daily_qc_airflow/daily_dedupe_mainnet.py:73-87 | The MERGE run on a table: rows outside the window are kept, the window's rows are replaced by one row for each key |
| Dedupe.BigQueryTable.SelectGrouped | daily_qc_airflow/daily_dedupe_mainnet.py:75-82 | The inner grouped SELECT yields one row of the window for every key |
| Dedupe.MergeIsMerged | daily_qc_airflow/daily_dedupe_mainnet.py:73-87 | Deleting the window and inserting the grouped rows is a MERGE in the sense the other results quantify over |
| Dedupe.MergesLeaveOneEachExactly | daily_qc_airflow/daily_dedupe_mainnet.py:73-87 | From any positive number of copies of listed rows, MERGEs of any days that together hold them leave each listed row exactly once if and only if no day's window holds two rows of one key |
| Dedupe.MergeNeverAdds | daily_qc_airflow/daily_dedupe_mainnet.py:73-87 | A MERGE gains no row a copy, and changes nothing outside its window |
| Dedupe.OneRowPerKey | daily_qc_airflow/daily_dedupe_mainnet.py:75-82 | Inside the window every key of the table is left with exactly one row, once |
| Dedupe.MergeIsIdempotent | daily_qc_airflow/daily_dedupe_mainnet.py:73-87 | A second MERGE over the same window changes nothing, whichever rows either picks |
| Dedupe.TransactionKeysDistinct | daily_qc_airflow/daily_dedupe_mainnet.py:33-42 | For transactions, changes, modules, table_items, resources and events, a transaction's rows have pairwise distinct keys |
| Dedupe.KeysHoldVersions | daily_qc_airflow/daily_dedupe_mainnet.py:33-42 | Rows of equal keys, blocks aside, have one version and one time, so one MERGE sees both or neither |
| Dedupe.BlockKeyIsHeight | daily_qc_airflow/daily_dedupe_mainnet.py:35 | A block-metadata transaction has one block row, keyed by its height |
| Dedupe.SignatureKeyIsNotPositional | daily_qc_airflow/daily_dedupe_mainnet.py:41 | Counterexample for the signatures key: an account of keys k, k, k2 that signs with the third, one signature required, extracts to two rows of one key |
| KeyLaws.SameKeyExactly | daily_qc_airflow/daily_dedupe_mainnet.py:33-42 | Two rows of a table have one key if and only if the columns it is grouped by agree, written out for each of the eight tables; for signatures the seven columns |
| KeyLaws.DayWindow | daily_qc_airflow/daily_dedupe_mainnet.py:78-86 | A day's window holds the rows whose `block_timestamp` lies in the day, and those of the next midnight |
| KeyLaws.MultiEd25519RowsApart | daily_qc_airflow/daily_dedupe_mainnet.py:41 | The rows of a multi-Ed25519 signature always have different keys |
| KeyLaws.FeePayerRowsApartExactly | daily_qc_airflow/daily_dedupe_mainnet.py:41 | The sender's and the fee payer's row of a fee payer transaction of Ed25519 accounts always have different keys; all its rows do if and only if no secondary signer is there twice |
| KeyLaws.SignatureRowsSurvive | daily_qc_airflow/daily_dedupe_mainnet.py:41 | On a ledger of Ed25519, multi-Ed25519 and such fee payer signatures the expected signatures rows have distinct keys, so the MERGEs keep them all |
| RangeExtraction.ExtractRange | extractor_transformer/src/aptos_config/mod.rs:615-1017 | For every stream, options and range, the call returns and publishes what the specification of the loop says, from stream creation errors to the publish phase |
| RangeExtraction.ExtractResponse | extractor_transformer/src/aptos_config/mod.rs:701-901 | The inner loop over one response: stops after the end version or at the first transaction that fails |
| RangeExtraction.Buffers.Add | extractor_transformer/src/aptos_config/mod.rs:725-893 | The body for one transaction: on success every record buffer grows by that transaction's rows of its table if the table is on; timestamp buffers stay the times of their record buffers |
| RangeExtraction.Buffers.ExtendIf | extractor_transformer/src/aptos_config/mod.rs:746-760 | Extending a record buffer extends its timestamp buffer by the same rows' times |
| RangeExtraction.PublishAll | extractor_transformer/src/aptos_config/mod.rs:909-1012 | One named batch per enabled table, in the order transactions, changes, modules, table items, resources, blocks, events, signatures |
| RangeExtraction.RunInOrder | extractor_transformer/src/aptos_config/mod.rs:677-907 | However an in-order stream is cut into responses, the loop folds the per-transaction step over its transactions up to the end version, and runs dry exactly when they fall short of it |
| RangeExtraction.ConvertExactly | extractor_transformer/src/aptos_config/mod.rs:734-893 | For any options, the loop's step succeeds on a transaction if and only if every enabled table does in the simple form, and then yields exactly those tables' rows, signature counts included |
| RangeExtraction.ConvertIsSimpleForm | extractor_transformer/src/aptos_config/processing/tables/all.rs:184-255 | With every table on, the loop's step succeeds if and only if `extract_records` does, and yields the same records |
| RangeExtraction.RangePublishesItsRows | extractor_transformer/src/aptos_config/mod.rs:677-1012 | Main refinement, any options: on an in-order stream the call succeeds if and only if the enabled tables of every transaction of `start..end` do, and then publishes, for every enabled table, the in-order concatenation of their rows, and nothing for the others |
| RangeExtraction.FailureNamesFirstTransaction | extractor_transformer/src/aptos_config/mod.rs:726-901 | Otherwise the call publishes nothing, and its error carries the cause and the version of the first transaction of the range whose enabled tables fail |
| RangeExtraction.ExhaustedPublishesNothing | extractor_transformer/src/aptos_config/mod.rs:690-697 | A stream that runs dry before the end version, single versions included: success is returned and nothing is published |
| RangeExtraction.PublishedExactlyUnlessEmptyFirst | extractor_transformer/src/aptos_config/mod.rs:895-906 | On a complete in-order stream, any options, the rows reach the publish phase if and only if no empty response comes first for a single version, or that version has no rows; with the transactions table on it always has one |
| RangeExtraction.PublishedTimesMatch | extractor_transformer/src/output/gcs.rs:68 | Every published batch carries one time for each row, the row's own, so the batcher's length assertion holds |
| RangeExtraction.EnabledTablesPublished | extractor_transformer/src/aptos_config/mod.rs:909-1012 | Every enabled table is published under the range's name |
| RangeExtraction.PublishesBySwitch | extractor_transformer/src/aptos_config/processing/tables/options.rs:60-105 | The publish phase written out switch by switch: each table goes out, from its own buffer and in the source's order, if and only if the switch of its own name is set and on |
| RangeExtraction.OneSwitchOneTable | extractor_transformer/src/aptos_config/processing/tables/options.rs:60-105 | Options with a single switch on publish just the table of that name |
| Tables.BuildRecords | extractor_transformer/src/aptos_config/processing/tables/all.rs:184-255 | `extract_records` as written, filling a container table by table, equals its specification, errors in the source's order |
| Tables.ExtractRecordsExactly | extractor_transformer/src/aptos_config/processing/tables/all.rs:184-255 | `extract_records` succeeds if and only if every one of the eight tables does, and holds the rows of each |
| Tables.RowsAreFiled | extractor_transformer/src/aptos_config/processing/tables/all.rs:184-255 | Every row lies in its own table and carries its transaction's version and time; there is exactly one transactions row |
| Tables.AddressColumnsAreRepaired | extractor_transformer/src/aptos_config/processing/tables/all.rs:184-255 | Every address column of every table (sender, proposer, change, module, resource, table item and event address, signer) is `0x` and 64 hex digits in repaired form |
| Tables.CountsMatchRows | daily_qc_airflow/row_counts.py:17-25 | The counts the row-count check reads from a transactions row (changes, modules, table items, resources, events, signatures) equal the rows produced in those tables |
| Tables.SigCountNeverMissing | extractor_transformer/src/aptos_config/processing/tables/transactions.rs:157-164 | With the count taken from `get_signatures`, the missing-signature-count error and the aggregate's error cannot occur |
| RowLaws.ConvertsExactly | extractor_transformer/src/aptos_config/processing/reps/transaction/tx.rs:114-168 | A transaction converts if and only if its time is there and not negative, its type and data are one of six pairs written out, its info is there, and every change's type and data agree; nothing of it is altered then |
| RowLaws.ConversionErrors | extractor_transformer/src/aptos_config/processing/reps/transaction/tx.rs:114-168 | Otherwise the error names what is wrong first: the time, the type, the data, the info, then a change |
| RowLaws.RowsExactly | extractor_transformer/src/aptos_config/processing/tables/all.rs:184-255 | `extract_records` succeeds if and only if the transaction converts, its time has a text, its remaining columns encode, every change's account, struct tag and ABI do, and so do its data: request, signature, signers, proposer and event keys |
| RowLaws.SignatureRowErrors | extractor_transformer/src/aptos_config/processing/tables/signatures.rs:50-88 | Otherwise the signatures rows fail for the first thing missing: the request, its signature, a signature that flattens, a time with a text, addresses that repair |
| RowLaws.EventErrors | extractor_transformer/src/aptos_config/processing/tables/events.rs:47-85 | The events fail with the first event whose key is missing or does not repair |
| RowLaws.OtherErrors | extractor_transformer/src/aptos_config/processing/tables/all.rs:184-255 | The changes fail for a missing user request or as the change rows do, a block as its proposer's address does |
| RowLaws.TimeErrors | extractor_transformer/src/aptos_config/processing/reps/timestamp.rs:145-164 | A time without a text is before 1900, or has a fraction no UTC time has |
| RowLaws.EncodedSecondExactly | extractor_transformer/src/aptos_config/processing/reps/timestamp.rs:145-164 | The second a text names is the time's own, and the last of 9999 for every later time |
| RowLaws.SenderExactly | extractor_transformer/src/aptos_config/processing/tables/transactions.rs:85-265 | A sender that does not repair stops a successful transaction and leaves the column of a failed one empty |
| RowLaws.NumSignaturesExactly | extractor_transformer/src/aptos_config/processing/tables/transactions.rs:157-164 | Only a successful user transaction needs the count of signatures; without one that is the error |
| RowLaws.TransactionTells | extractor_transformer/src/aptos_config/processing/tables/transactions.rs:85-265 | The one transactions row counts the write set's changes of each type, the events and the signatures rows, and carries the message's success flag, its sender in repaired form and its remaining columns |
| RowLaws.EventsTell | extractor_transformer/src/aptos_config/processing/tables/events.rs:47-85 | Row i of the events table is event i of the message: its key's account in repaired form and its data |
| RowLaws.BlocksTell | extractor_transformer/src/aptos_config/processing/tables/blocks.rs:47-67 | A block-metadata transaction has one block row, of its height and its proposer in repaired form; others have none |
| RowLaws.SignaturesTell | extractor_transformer/src/aptos_config/processing/tables/signatures.rs:50-88 | A user transaction's signatures rows are those of its signature; others have none |
| RowLaws.ChangesTell | extractor_transformer/src/aptos_config/processing/tables/changes.rs:173-296 | The changes table and its sub-tables hold, row by row, what the write set's changes say |
| RowLaws.UserTransactionExtracts | extractor_transformer/src/aptos_config/processing/tables/all.rs:184-255 | An Ed25519-signed user transaction extracts to one transactions row and one signatures row, both written out column by column from the message, and a row for each event |
| Batching.Bucket.PublishBatch | extractor_transformer/src/output/gcs.rs:60-223 | For any times, records and pattern of refused uploads the call uploads and returns, or panics, as the specification of the loop says, stale file index included |
| Batching.Bucket.FlushDraining | extractor_transformer/src/output/gcs.rs:132-173 | The intermediate flush: every attempt drains the batch size again, and the first attempt not refused uploads what it drained |
| Batching.Bucket.FlushLast | extractor_transformer/src/output/gcs.rs:186-223 | The final flush: its content is fixed before it, so refused attempts change nothing |
| Batching.SameDirExactly | extractor_transformer/src/output/gcs.rs:109-119 | Two times share a directory if and only if they lie in the same half hour, before 1970 too |
| Batching.EncodedTimesParse | extractor_transformer/src/output/gcs.rs:101-104 | Every time with a text that is not clamped is one the batcher can turn into a date |
| Batching.ParseableExactly | extractor_transformer/src/output/gcs.rs:101-104 | The times the batcher takes are those of chrono's whole years with nanoseconds inside a second, or inside the leap second of a minute; any other panics |
| Batching.BoundsAreYears | extractor_transformer/src/aptos_config/processing/reps/timestamp.rs:16-18 | The bounds of texts and of dates are the starts and ends of whole years |
| BatchingLaws.CleanCallUploadsRuns | extractor_transformer/src/output/gcs.rs:95-183 | With no intermediate upload refused, a call uploads one file for each maximal run of one half hour, in order |
| BatchingLaws.ConservesExactly | extractor_transformer/src/output/gcs.rs:132-183 | Splitting the uploaded files on newlines gives back the record list if and only if no intermediate upload is refused; refusals of the final flush do not matter |
| BatchingLaws.PlacedInItsHalfHour | extractor_transformer/src/output/gcs.rs:105-131 | Every record lies in the file of its run, whose directory is the floor of seconds/1800 of the record's own time |
| BatchingLaws.CallLoadsItsHour | loader/airflow_dags/dag_hourly_aptos_etl_testnet.py:124-127 | Of one call's files the hourly loader's two globs pick exactly the records of that hour, in order |
| BatchingLaws.UploadsLikeClean | extractor_transformer/src/output/gcs.rs:132-183 | Whatever is refused and wherever a call ends, its k-th upload goes to the path of the k-th run; it is that run's file when no intermediate flush up to it was refused, and for distinct records only then |
| BatchingLaws.UploadsAllExactly | extractor_transformer/src/output/gcs.rs:60-223 | A call that returns has uploaded every record, as often as the list holds it, if and only if none of its intermediate flushes was refused |
| BatchingLaws.PathsAreDistinct | extractor_transformer/src/output/gcs.rs:98-183 | No two files of a call share a path, for any sequence of times and despite the stale last index |
| BatchingLaws.FileNamesInjective | extractor_transformer/src/aptos_config/mod.rs:914 | A file name determines its range and its index, so files of different ranges never collide |
| BucketLaws.AttemptsLeaveCleanBucket | extractor_transformer/src/output/gcs.rs:98-183 | Main result: attempts at any set of ranges may be refused, crash after any upload, repeat and interleave; the bucket is as after running every range once without a refusal, when the last upload at every path came before any refusal of its own attempt |
| BucketLaws.CleanBucketExactly | extractor_transformer/src/output/gcs.rs:98-183 | Into an empty bucket, with no two records of a range alike, the bucket is that of clean runs if and only if the last upload at every path came before any refusal of its own attempt |
| BucketLaws.UnrefusedAttemptsSuffice | extractor_transformer/src/output/gcs.rs:98-183 | When no intermediate flush is refused and every range has one attempt that got through, that holds for any interleaving |
| BucketLaws.RunPathsAreDistinct | extractor_transformer/src/aptos_config/mod.rs:914 | No two files of any of the ranges share a path |
| BucketLaws.HourlyLoadIsExact | loader/airflow_dags/dag_hourly_aptos_etl_testnet.py:124-127 | From the bucket such attempts leave, listed in any order, the hourly loader's two globs load exactly the records of that hour, each as often as the ranges hold it |
| MoveTypes.TryEncodeStructTag | extractor_transformer/src/aptos_config/processing/reps/structtag.rs:99-120 | The struct tag printer equals its specification: address, module and name joined by `::`, parameters in angle brackets, the first error first |
| MoveTypes.TryEncodeParams | extractor_transformer/src/aptos_config/processing/reps/structtag.rs:104-112 | The parameter loop prints parameters in order and stops at the first error |
| MoveTypes.EncodeSucceedsExactly | extractor_transformer/src/aptos_config/processing/reps/movetype.rs:112-221 | Printing a type tree succeeds if and only if every node's tag fits its content and every struct address in it normalises |
| MoveTypes.EncodeAllSucceedsExactly | extractor_transformer/src/aptos_config/processing/reps/structtag.rs:86-120 | The same for a list of parameters, together with the decoding of their enum numbers |
| MoveTypes.UnsignedPrintsItsWidth | extractor_transformer/src/aptos_config/processing/reps/movetype.rs:112-138 | An unsigned integer type prints as `U` and its width |
| MoveTypes.ContentNeededExactly | extractor_transformer/src/aptos_config/processing/reps/movetype.rs:112-138 | A vector, struct, generic parameter or reference without content is the missing-content error, and no other type is |
| MoveTypes.PlainNames | extractor_transformer/src/aptos_config/processing/reps/movetype.rs:112-138 | The other types without content print as their names without the prefix |
| MoveTypeParsing.ParsePrinted | extractor_transformer/src/aptos_config/processing/reps/movetype.rs:140-221 | Lexing and parsing a printed type gives the tree back with addresses in repaired form, for every tree with delimiter-free names |
| MoveTypeParsing.TokensSpell | extractor_transformer/src/aptos_config/processing/reps/movetype.rs:140-221 | The token list of a tree spells exactly what the mutually recursive printers write |
| MoveTypeParsing.LexRender | extractor_transformer/src/aptos_config/processing/reps/movetype.rs:140-221 | Lexing undoes spelling: `&` and `&mut ` are told apart and words end at delimiters |
| MoveTypeParsing.NormalizePrintsTheSame | extractor_transformer/src/aptos_config/processing/reps/structtag.rs:99-120 | Repairing the addresses of a tree does not change its text |
| MoveTypeParsing.PrintedTypesUnambiguous | extractor_transformer/src/aptos_config/processing/reps/movetype.rs:140-221 | Two printed types are equal if and only if their trees are equal up to address normal form |
| MoveTypeParsing.DelimiterInNameIsAmbiguous | extractor_transformer/src/aptos_config/processing/reps/structtag.rs:99-120 | Without delimiter-free names two different trees can print alike |
| Address.TryFixString | extractor_transformer/src/aptos_config/processing/reps/address.rs:88-108 | The repair loop returns within two validations for every string, so its unreachable branch is never hit, and returns the specified repair or error |
| Address.FixedSucceedsExactly | extractor_transformer/src/aptos_config/processing/reps/address.rs:54-108 | Repair succeeds if and only if at most 64 hex digits follow an optional prefix, and gives `0x` and 64 digits |
| Address.FixedNeverBlamesPadding | extractor_transformer/src/aptos_config/processing/reps/address.rs:88-105 | A failed repair is never reported as a missing prefix or a short address |
| Address.FixedErrorsExactly | extractor_transformer/src/aptos_config/processing/reps/address.rs:54-108 | A refused address is too long, with its length in bytes, or the error names the characters that are no hex digits, each as often as it occurs |
| Address.HexDigits | extractor_transformer/src/aptos_config/processing/reps/address.rs:54-86 | The hex digits are 0 to 9, a to f and A to F |
| Address.Utf8LengthIsLeast | extractor_transformer/src/aptos_config/processing/reps/address.rs:54-86 | Lengths are in bytes of UTF-8: a character takes the fewest that can hold it |
| Address.FixedIsIdempotent | extractor_transformer/src/aptos_config/processing/reps/address.rs:88-108 | Repairing a repaired address changes nothing |
| Address.FixedKeepsValue | extractor_transformer/src/aptos_config/processing/reps/address.rs:88-108 | Repair preserves the hexadecimal value |
| Address.FixedAgreeExactly | extractor_transformer/src/aptos_config/processing/reps/address.rs:88-108 | Two valid inputs repair to the same string if and only if their digits agree after leading zeros |
| Address.BytesEncodeExactly | extractor_transformer/src/aptos_config/processing/reps/address.rs:112-128 | Byte addresses encode if and only if they have at most 32 bytes, injectively for equal lengths |
| Address.HexEncodeKeepsValue | extractor_transformer/src/aptos_config/processing/reps/hashval.rs:11-15 | Hex text reads as the number the bytes denote, most significant first, in small letters |
| Signatures.IndexSignatures | extractor_transformer/src/aptos_config/processing/reps/signatures.rs:371-391 | The insertion loop of both multi-key builders: first failed conversion or repeated index is the error |
| Signatures.BuildMultiEd25519 | extractor_transformer/src/aptos_config/processing/reps/signatures.rs:355-416 | `from_multied25519` as written, with its map and removals, equals the direct join |
| Signatures.BuildMultiKey | extractor_transformer/src/aptos_config/processing/reps/signatures.rs:444-481 | `from_multikeysignature` as written equals the direct join |
| Signatures.IndexExactly | extractor_transformer/src/aptos_config/processing/reps/signatures.rs:371-391 | Indexing succeeds if and only if every signature converts and no index repeats |
| Signatures.MultiEd25519Join | extractor_transformer/src/aptos_config/processing/reps/signatures.rs:355-416 | Succeeds if and only if lengths match and no index repeats; then one record per key in order, record i with the unique signature of index i or none, together a permutation of the in-range signatures |
| Signatures.MultiKeyJoin | extractor_transformer/src/aptos_config/processing/reps/signatures.rs:444-481 | The same for multi-key signatures, where keys and signatures must also convert |
| SignatureLaws.Ed25519Record | extractor_transformer/src/aptos_config/processing/reps/signatures.rs:326-350 | The record's key text is the hex of the message's key bytes and its signature text the hex of its signature bytes |
| SignatureLaws.SingleKeyRecord | extractor_transformer/src/aptos_config/processing/reps/signatures.rs:418-442 | A single key signature flattens if and only if both halves are there and of known types, to one record of those bytes and types |
| SignatureLaws.AbstractionRecord | extractor_transformer/src/aptos_config/processing/reps/signatures.rs:483-503 | An abstraction's record carries no key and the hex of the signature's bytes |
| SignatureLaws.MultiEd25519Records | extractor_transformer/src/aptos_config/processing/reps/signatures.rs:355-416 | Flattens if and only if every signature names a key and none is named twice; record i has the hex of key i, position i, the threshold, and the signature that names i, if any |
| SignatureLaws.MultiKeyRecordsExactly | extractor_transformer/src/aptos_config/processing/reps/signatures.rs:444-481 | Flattens if and only if all keys and signatures are of known types and no key is named twice; record i has key i, its type's name, the required count, and the signature that names i, if any |
| SignatureLaws.KindNames | extractor_transformer/src/aptos_config/processing/reps/publickey.rs:30-55 | The names of the key and signature types, and that just the unspecified ones have none |
| SignatureLaws.AccountFlattensExactly | extractor_transformer/src/aptos_config/processing/reps/signatures.rs:506-534 | An account's signature flattens if and only if its type is that of its data and the data flatten, to the data's records |
| SignatureLaws.FlattensExactly | extractor_transformer/src/aptos_config/processing/reps/signatures.rs:170-323 | A signature flattens if and only if its type is that of its data, its required accounts are there, and they and the secondary signers with an address flatten |
| SignatureLaws.SignatureErrors | extractor_transformer/src/aptos_config/processing/reps/signatures.rs:170-323 | Otherwise it fails as unspecified, as missing its data, for the first required account that is not there, or as that account does |
| SignatureLaws.AccountErrors | extractor_transformer/src/aptos_config/processing/reps/signatures.rs:506-534 | An account fails as unspecified, as missing its data, or as its data do |
| SignatureLaws.SingleKeyErrors | extractor_transformer/src/aptos_config/processing/reps/signatures.rs:418-442 | A single key signature fails for the first missing half, then for its variant, then for an unspecified type |
| SignatureLaws.MultiKeyErrors | extractor_transformer/src/aptos_config/processing/reps/signatures.rs:444-481 | A multi-key signature fails with its first signature that is missing, of no known variant or type, or of a key named before, and otherwise for an unspecified key |
| SignatureLaws.MultiEd25519Errors | extractor_transformer/src/aptos_config/processing/reps/signatures.rs:355-416 | A multi-Ed25519 signature fails with its three lengths, or with the first key named twice |
| SignatureLaws.RowsKeepContents | extractor_transformer/src/aptos_config/processing/tables/signatures.rs:67-86 | Row i keeps the key, signature and threshold of record i and carries the transaction's version |
| SignatureLaws.RowsCarryAccounts | extractor_transformer/src/aptos_config/processing/reps/signatures.rs:203-323 | The rows of a composite signature carry their accounts' own keys, signatures and thresholds, one account after the other |
| SignatureLaws.RowsSucceedExactly | extractor_transformer/src/aptos_config/processing/tables/signatures.rs:50-88 | `get_signatures` succeeds if and only if the signature flattens and the sender's and every signer's address repairs |
| SignatureLaws.FeePayerRows | extractor_transformer/src/aptos_config/processing/reps/signatures.rs:254-323 | A fee payer transaction of Ed25519 accounts has the sender's row, the fee payer's and each secondary signer's, each with its own key, signature, flags and address |
| SignatureRoles.BuildMultiAgent | extractor_transformer/src/aptos_config/processing/reps/signatures.rs:203-252 | `from_multiagentsignature` as written: secondary signers, then the sender, each with its role's fields |
| SignatureRoles.BuildFeePayer | extractor_transformer/src/aptos_config/processing/reps/signatures.rs:254-323 | `from_feepayersignature` as written: sender, fee payer, then secondary signers |
| SignatureRoles.BuildSignatures | extractor_transformer/src/aptos_config/processing/tables/signatures.rs:50-88 | `get_signatures` for a user transaction equals its specification, errors included |
| SignatureRoles.FromSignatureFlattens | extractor_transformer/src/aptos_config/processing/reps/signatures.rs:170-323 | A composite signature's records are its accounts' records one account after the other, each with its role's fields |
| SignatureRoles.RowsPlayTheirRoles | extractor_transformer/src/aptos_config/processing/tables/signatures.rs:67-86 | Every row of a composite signature carries the build type, role flags and signer of the account it comes from: exactly one true flag for fee payer signatures, sender or secondary for multi-agent ones, the zipped address as signer |
| SignatureRoles.FromSignatureUsable | extractor_transformer/src/aptos_config/processing/reps/signatures.rs:170-201 | Every record of a signature has usable build type and role flags, the build type being the outer signature's |
| SignatureRoles.DeferredFailureUnreachable | extractor_transformer/src/aptos_config/processing/tables/signatures.rs:67-86 | The deferred-value error of `get_signatures` cannot occur; one row per record, each with the outer signature's build type |
| Changes.BuildChanges | extractor_transformer/src/aptos_config/processing/reps/transaction/tx_info.rs:75-97 | The conversion loop stops at the first change that fails |
| Changes.CalculateChangesAggregate | extractor_transformer/src/aptos_config/processing/reps/transaction/tx_info.rs:35-72 | Counting into a map, removing six entries and looking at the rest equals the six direct counts, or the error on a change of unspecified type |
| Changes.PushChanges | extractor_transformer/src/aptos_config/processing/tables/changes.rs:173-296 | The loop of `get_changes` with its four vectors equals its specification |
| Changes.SubTablesPartitionChanges | extractor_transformer/src/aptos_config/processing/tables/changes.rs:173-296 | Merged by change index, the resource, module and table-item rows are the changes table row by row, with indices 0 to n-1, the same type, address and hash |
| Changes.MergeKeepsRows | extractor_transformer/src/aptos_config/processing/tables/changes.rs:173-296 | The merge loses and invents nothing: each sub-table is read back from it in order |
| Changes.SubTablesAscend | extractor_transformer/src/aptos_config/processing/tables/changes.rs:173-296 | Change indices ascend in every sub-table |
| Changes.AggregateCountsRows | extractor_transformer/src/aptos_config/processing/reps/transaction/tx_info.rs:35-72 | The six counts of the aggregate are the numbers of rows emitted of each kind and sum to the total |
| Changes.NothingUnaccounted | extractor_transformer/src/aptos_config/processing/reps/transaction/tx_info.rs:66-71 | On extracted changes the unaccounted-change error cannot occur |
| Changes.ChangesSucceedExactly | extractor_transformer/src/aptos_config/processing/tables/changes.rs:173-296 | On extracted changes `get_changes` fails only on an address, struct tag or ABI, and never with the invalid-type or unspecified-type error |
| WriteSetLaws.WriteSetConvertsExactly | extractor_transformer/src/aptos_config/processing/reps/changes.rs:50-85 | The write set converts if and only if every change has data of its own type with nothing missing and tags that decode; record i then keeps the type, the address or handle, the hash, and the ABI, tag, or key and value of change i |
| WriteSetLaws.FirstDisagreementIsBlamed | extractor_transformer/src/aptos_config/processing/reps/changes.rs:50-85 | Otherwise the error is that of the first change that does not agree, and says why |
| WriteSetLaws.StripsExactly | extractor_transformer/src/aptos_config/processing/reps/changes.rs:353-358 | A key or value loses a pair of quotation marks or a lone closing one, and keeps a lone opening one |
| WriteSetLaws.AggregateCountsWriteSet | extractor_transformer/src/aptos_config/processing/reps/transaction/tx_info.rs:35-72 | The six counts are the numbers of the write set's changes of each type, the total their number |
| WriteSetLaws.TablesTellWriteSet | extractor_transformer/src/aptos_config/processing/tables/changes.rs:173-296 | Row i of the changes table has the type, the repaired account and the hash of change i; the sub-row of index i tells of the same module, resource or table item, its struct tag's columns put together being the printed tag |
| WriteSetLaws.RowsSucceedExactly | extractor_transformer/src/aptos_config/processing/tables/changes.rs:173-296 | On a write set that converts, the rows can be built if and only if every account repairs and every ABI and struct tag encodes |
| PubSub.Publisher.PublishBatch | extractor_transformer/src/output/google_pubsub.rs:102-112 | Chunks of 900 go out in order, each as one bulk send and the repairs of its failed entries |
| PubSub.Publisher.PublishBatchWithBackoff | extractor_transformer/src/output/google_pubsub.rs:143-157 | A chunk's bulk send, then single sends for the entries not confirmed |
| PubSub.Publisher.PublishWithBackoff | extractor_transformer/src/output/google_pubsub.rs:123-141 | Single sends repeat until one is confirmed, and stop there |
| PubSub.EachConfirmedOnce | extractor_transformer/src/output/google_pubsub.rs:102-157 | For any failures that let publishing finish, every message gets exactly one confirmed send, of its own payload |
| PubSub.SendsOwn | extractor_transformer/src/output/google_pubsub.rs:143-157 | No send carries the payload of another message |
| PubSub.SendsByNineHundreds | extractor_transformer/src/output/google_pubsub.rs:102-112 | A batch goes out as the sends of messages 900 k to 900 k + 899 for every k, the last chunk being what is left |
| Modfile.Trie.AddFile | extractor_transformer/src/aptos_config/build_proto.rs:151-170 | On the linked nodes, with a cursor that moves down from the root: adds a node for every prefix of the file's dotted path and the file at the path; panics, with the file found there, if and only if another file is set |
| Modfile.Node.Add | extractor_transformer/src/aptos_config/build_proto.rs:138-149 | The child is created when missing, and a given file is set on it or found there; the other children stay |
| Modfile.Trie.AddAt | extractor_transformer/src/aptos_config/build_proto.rs:138-149 | Seen from the whole tree, a call of `add` on any node keeps the tree and changes nothing but the child it names |
| Modfile.Node.FillPath | extractor_transformer/src/aptos_config/build_proto.rs:119-127 | Setting a node's file fails, with the file found, if and only if another file is set |
| Modfile.Trie.AddFiles | extractor_transformer/src/aptos_config/build_proto.rs:205-209 | Adding a list of files panics if and only if two different files share a dotted path, naming the earlier one, and otherwise builds the tree that represents the list |
| Modfile.OrderDoesNotMatter | extractor_transformer/src/aptos_config/build_proto.rs:205-208 | Tries of the same files are equal, whatever the order they were added in |
| ModfilePrinting.RToModfile | extractor_transformer/src/aptos_config/build_proto.rs:172-197 | The recursive writer over the linked nodes appends the text of a node's opening, its include line, its children in the map's order and its closing |
| ModfilePrinting.PathSpellsFileName | extractor_transformer/src/aptos_config/build_proto.rs:96-106 | The parts of a file's module path, joined by dots, and its extension make up the name it is included under |
| ModfileReading.ParseText | extractor_transformer/src/aptos_config/build_proto.rs:172-197 | Lexing and parsing the characters of printed lines gives the lines back, for module names that are identifiers and any file names |
| ModfileReading.ReadEscaped | extractor_transformer/src/aptos_config/build_proto.rs:177-181 | A file name printed with `{:?}` is read back, whatever its characters |
| ModfileReading.ModfileReadsBackExactly | extractor_transformer/src/aptos_config/build_proto.rs:172-197 | Main result: for every child order the mod file's text reads back, braces balanced, to every file once at its dotted path and every module once, if and only if every part of every file's stem is an identifier |
| ModfileReading.CreateMod | extractor_transformer/src/aptos_config/build_proto.rs:109-214 | From the file list on: panics if and only if two different files share a dotted path, and otherwise the text written reads back to the files if and only if the names are identifiers |
| ModfileReading.BracesInNameMisread | extractor_transformer/src/aptos_config/build_proto.rs:172-197 | Counterexample for other names: one file, whose mod file reads without complaint as two modules |

## Left out

- BucketLaws.AttemptsLeaveCleanBucket: takes extracting a range again to give the same records.
- ProtocolLaws.EmptyAckLosesRange: is stated for the transactions table, which has a row for every version.
- RangeExtraction.RangePublishesItsRows: takes a stream that delivers the range in order; other streams are covered by RangeExtraction.ExtractRange itself.
- Stream creation, fallback endpoints, Pub/Sub, storage and BigQuery clients, metrics and environment loading: their outcomes are inputs.
- Kafka, RabbitMQ and local file outputs: not part of this model.
- Wall-clock time, sleeps and ack deadlines: redelivery is a step that is always enabled, and retries are counted, not timed.
- ProtocolWorker.WorkerRuns: takes each waiting message to be delivered once to the worker, its stream to follow the chain as far as it goes, and its publishes to land no row they do not hold; other streams are covered by ProtocolWorker.SubscribeAndExtract itself.
- The copy from bucket to BigQuery (loader): the protocol's publish step adds rows to the table directly; only the loader's choice of files is modelled.
- Which rows a lossy or interrupted publish lands: any of the table's rows, none too often; ProtocolBatching.BatchLands shows the batcher's files to be such.
- Calendar dates: a day is its number since 1970; of the text of times only whether there is one, and the second it names in the default format, are modelled. A configured format with fractions is left out.
- The bounds of UTC times come from the chrono library, which is not part of this model.
- JSON, protobuf, base64 and serde: a serialised record is a non-empty string without a raw newline, different for different rows.
- The enum numbers of Move types come from the Aptos protobuf definitions, which are not part of this model: a raw number is a known tag or an unknown number.
- Module ABI and bytecode, payload, gas, hashes and expiry columns: one outcome per transaction or module stands for them.
- Event sequence numbers and type strings, block votes and rounds: copied columns without branching.
- Integer widths: versions, heights and counts are unbounded; the casts between 64-bit types are not modelled.
- A refused upload is taken to leave the bucket as it was.
- ModfileReading.ModfileReadsBackExactly: the reader knows ASCII identifiers only, so names such as `r#type` count as not reading back, and `{:?}` is modelled with Rust's short escapes only, which suffices for the names that do read back.
- The Deferred transitions no builder relies on (`make_present`, `set_fallback` and the unwrapping accessors).
- `extract`, block lists, resuming from a previous range, `get_range` and `earliest_timestamp`: unused or simple folds.
- Terraform, Helm, shell scripts and schemas: configuration.
