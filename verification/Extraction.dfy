/** The stream loop that extracts a range and publishes its tables (aptos_config/mod.rs `extract_range`, tables/options.rs). */
module RangeExtraction {
  import opened Wrappers
  import opened Text
  import opened Tables
  import Changes

  datatype TableOptions = TableOptions(
    blocks: Option<bool>, transactions: Option<bool>, events: Option<bool>, changes: Option<bool>,
    modules: Option<bool>, tableItems: Option<bool>, resources: Option<bool>, signatures: Option<bool>)
  {
    /** Whether the table is switched on; a switch that is not set counts as off. */
    predicate Does(t: Table) {
      match t
      case TransactionsTable => transactions.GetOr(false)
      case ChangesTable => changes.GetOr(false)
      case ModulesTable => modules.GetOr(false)
      case TableItemsTable => tableItems.GetOr(false)
      case ResourcesTable => resources.GetOr(false)
      case BlocksTable => blocks.GetOr(false)
      case EventsTable => events.GetOr(false)
      case SignaturesTable => signatures.GetOr(false)
    }

    predicate DoesChangesOrSubchanges() {
      Does(ChangesTable) || Does(ModulesTable) || Does(ResourcesTable) || Does(TableItemsTable)
    }
  }

  const NewAll := TableOptions(Some(true), Some(true), Some(true), Some(true), Some(true), Some(true), Some(true), Some(true))

  function If(on: bool, rows: seq<Row>): seq<Row> {
    if on then rows else []
  }

  /** The rows of the enabled tables only. */
  function Only(o: TableOptions, r: Records): (out: Records)
    ensures forall t: Table :: out.At(t) == if o.Does(t) then r.At(t) else []
  {
    ByTable(If(o.Does(TransactionsTable), r.transactions), If(o.Does(ChangesTable), r.changes),
            If(o.Does(ModulesTable), r.modules), If(o.Does(TableItemsTable), r.tableItems),
            If(o.Does(ResourcesTable), r.resources), If(o.Does(BlocksTable), r.blocks),
            If(o.Does(EventsTable), r.events), If(o.Does(SignaturesTable), r.signatures))
  }

  function Append(a: Records, b: Records): (out: Records)
    ensures forall t: Table :: out.At(t) == a.At(t) + b.At(t)
  {
    ByTable(a.transactions + b.transactions, a.changes + b.changes, a.modules + b.modules, a.tableItems + b.tableItems,
            a.resources + b.resources, a.blocks + b.blocks, a.events + b.events, a.signatures + b.signatures)
  }

  lemma {:induction false} SameRows(a: Records, b: Records)
    requires forall t: Table :: a.At(t) == b.At(t)
    ensures a == b
  {
    assert a.At(TransactionsTable) == b.At(TransactionsTable);
    assert a.At(ChangesTable) == b.At(ChangesTable);
    assert a.At(ModulesTable) == b.At(ModulesTable);
    assert a.At(TableItemsTable) == b.At(TableItemsTable);
    assert a.At(ResourcesTable) == b.At(ResourcesTable);
    assert a.At(BlocksTable) == b.At(BlocksTable);
    assert a.At(EventsTable) == b.At(EventsTable);
    assert a.At(SignaturesTable) == b.At(SignaturesTable);
  }

  function Times(rows: seq<Row>): (times: seq<UnixTimestamp>)
    ensures |times| == |rows|
    ensures forall i :: 0 <= i < |rows| ==> times[i] == rows[i].unix
  {
    seq(|rows|, i requires 0 <= i < |rows| => rows[i].unix)
  }

  lemma {:induction false} TimesAppend(a: seq<Row>, b: seq<Row>)
    ensures Times(a + b) == Times(a) + Times(b)
  {
  }

  // One transaction of the loop

  type OptionalRows = Result<Option<seq<Row>>, RecordError>

  /** Signatures are counted for the transactions table even when their own table is off. */
  function SignaturesIf(o: TableOptions, x: Extraction): OptionalRows {
    if o.Does(SignaturesTable) || o.Does(TransactionsTable) then SignatureRows(x) else Success(None)
  }

  function BlockIf(o: TableOptions, x: Extraction): Result<Option<Row>, RecordError> {
    if o.Does(BlocksTable) then BlockRow(x) else Success(None)
  }

  function TransactionIf(o: TableOptions, x: Extraction, sigCount: Option<nat>): Result<Option<Row>, RecordError> {
    if o.Does(TransactionsTable) then
      var row :- TransactionRow(x, sigCount);
      Success(Some(row))
    else Success(None)
  }

  function EventsIf(o: TableOptions, x: Extraction): OptionalRows {
    if o.Does(EventsTable) then EventRows(x) else Success(None)
  }

  function ChangesIf(o: TableOptions, x: Extraction): Result<Changes.ChangeRecords, RecordError> {
    if o.DoesChangesOrSubchanges() then ChangeRows(x) else Success(Changes.NoRecords)
  }

  function Assemble(o: TableOptions, x: Extraction, signatures: Option<seq<Row>>, block: Option<Row>, row: Option<Row>,
                    events: Option<seq<Row>>, changes: Changes.ChangeRecords): Records {
    Only(o, ByTable(
      Single(row), Rows(x, ChangeFieldsOf(changes.changes)), Rows(x, ModuleFieldsOf(changes.modules)),
      Rows(x, TableItemFieldsOf(changes.tableItems)), Rows(x, ResourceFieldsOf(changes.resources)),
      Single(block), OrNone(events), OrNone(signatures)))
  }

  /** Signatures, block, transaction, events, changes, each only when switched on; the first error stops. */
  function Convert(o: TableOptions, tx: Transaction): Result<Records, RecordError> {
    var x :- Extract(tx);
    var signatures :- SignaturesIf(o, x);
    var block :- BlockIf(o, x);
    var row :- TransactionIf(o, x, Count(signatures));
    var events :- EventsIf(o, x);
    var changes :- ChangesIf(o, x);
    Success(Assemble(o, x, signatures, block, row, events, changes))
  }

  lemma {:induction false} ConvertUnfolds(o: TableOptions, tx: Transaction)
    ensures Convert(o, tx) ==
      match Extract(tx)
      case Failure(e) => Failure(e)
      case Success(x) =>
        match SignaturesIf(o, x)
        case Failure(e) => Failure(e)
        case Success(signatures) =>
          match BlockIf(o, x)
          case Failure(e) => Failure(e)
          case Success(block) =>
            match TransactionIf(o, x, Count(signatures))
            case Failure(e) => Failure(e)
            case Success(row) =>
              match EventsIf(o, x)
              case Failure(e) => Failure(e)
              case Success(events) =>
                match ChangesIf(o, x)
                case Failure(e) => Failure(e)
                case Success(changes) => Success(Assemble(o, x, signatures, block, row, events, changes))
  {
    hide Extract, SignaturesIf, BlockIf, TransactionIf, EventsIf, ChangesIf, Assemble;
  }

  /** A table's rows of a transaction, or none when they cannot be built. */
  function Given(t: Table, tx: Transaction): seq<Row> {
    match RowsFor(t, tx)
    case Success(rows) => rows
    case Failure(_) => []
  }

  lemma {:induction false} ConvertGives(o: TableOptions, tx: Transaction, t: Table)
    requires Convert(o, tx).Success?
    ensures Extract(tx).Success? && (o.Does(t) ==> RowsFor(t, tx).Success?)
    ensures Convert(o, tx).value.At(t) == If(o.Does(t), Given(t, tx))
  {
    hide Extract, SignatureRows, BlockRow, TransactionRow, EventRows, ChangeRows, Rows;
  }

  /** The step builds each enabled table as if the others were not there: it succeeds exactly when the transaction
      extracts and every enabled table's rows do, and yields those rows and no others. */
  lemma {:induction false} ConvertExactly(o: TableOptions, tx: Transaction)
    ensures Convert(o, tx).Success? <==> Extract(tx).Success? && forall t: Table :: o.Does(t) ==> RowsFor(t, tx).Success?
    ensures Convert(o, tx).Success? ==> forall t: Table :: Convert(o, tx).value.At(t) == If(o.Does(t), Given(t, tx))
  {
    hide Extract, Convert, RowsFor, Given;
    if Convert(o, tx).Success? {
      forall t: Table
        ensures Extract(tx).Success? && (o.Does(t) ==> RowsFor(t, tx).Success?)
        ensures Convert(o, tx).value.At(t) == If(o.Does(t), Given(t, tx))
      {
        ConvertGives(o, tx, t);
      }
      ConvertGives(o, tx, TransactionsTable);
    } else if Extract(tx).Success? {
      SomeTableFails(o, tx);
    }
  }

  lemma {:induction false} SomeTableFails(o: TableOptions, tx: Transaction)
    requires Convert(o, tx).Failure? && Extract(tx).Success?
    ensures exists t: Table :: o.Does(t) && RowsFor(t, tx).Failure?
  {
    hide Extract, SignatureRows, BlockRow, TransactionRow, EventRows, ChangeRows, Rows, Assemble;
    if forall t: Table :: o.Does(t) ==> RowsFor(t, tx).Success? {
      assert o.Does(TransactionsTable) ==> RowsFor(TransactionsTable, tx).Success?;
      assert o.Does(SignaturesTable) ==> RowsFor(SignaturesTable, tx).Success?;
      assert o.Does(BlocksTable) ==> RowsFor(BlocksTable, tx).Success?;
      assert o.Does(EventsTable) ==> RowsFor(EventsTable, tx).Success?;
      assert o.Does(ChangesTable) ==> RowsFor(ChangesTable, tx).Success?;
      assert o.Does(ModulesTable) ==> RowsFor(ModulesTable, tx).Success?;
      assert o.Does(ResourcesTable) ==> RowsFor(ResourcesTable, tx).Success?;
      assert o.Does(TableItemsTable) ==> RowsFor(TableItemsTable, tx).Success?;
    }
  }

  /** With every table on, the step and the simple form succeed together and give the same rows. */
  lemma {:induction false} ConvertIsSimpleForm(tx: Transaction)
    ensures Convert(NewAll, tx).Success? <==> ExtractRecords(tx).Success?
    ensures Convert(NewAll, tx).Success? ==> Convert(NewAll, tx) == Success(ExtractRecords(tx).value)
  {
    hide Convert, ExtractRecords, RowsFor, Extract;
    ConvertExactly(NewAll, tx);
    ExtractRecordsExactly(tx);
    EveryTableNeedsExtraction(tx);
    assert forall t: Table :: NewAll.Does(t);
    assert ExtractRecords(tx).Success? ==> RowsFor(TransactionsTable, tx).Success?;
    if Convert(NewAll, tx).Success? {
      forall t: Table ensures Convert(NewAll, tx).value.At(t) == ExtractRecords(tx).value.At(t) {
        assert RowsFor(t, tx) == Success(ExtractRecords(tx).value.At(t));
      }
      SameRows(Convert(NewAll, tx).value, ExtractRecords(tx).value);
    }
  }

  lemma {:induction false} EveryTableNeedsExtraction(tx: Transaction)
    ensures forall t: Table :: RowsFor(t, tx).Success? ==> Extract(tx).Success?
  {
    hide Extract, RowsOf;
  }

  lemma {:induction false} AppendSteps(r0: Records, r1: Records, r2: Records, r3: Records, r4: Records, r5: Records, r6: Records, r7: Records,
                                       r8: Records, o: TableOptions, x: Extraction, signatures: Option<seq<Row>>, block: Option<Row>,
                                       row: Option<Row>, events: Option<seq<Row>>, changes: Changes.ChangeRecords)
    requires r1 == r0.With(SignaturesTable, r0.At(SignaturesTable) + If(o.Does(SignaturesTable), OrNone(signatures)))
    requires r2 == r1.With(BlocksTable, r1.At(BlocksTable) + If(o.Does(BlocksTable), Single(block)))
    requires r3 == r2.With(TransactionsTable, r2.At(TransactionsTable) + If(o.Does(TransactionsTable), Single(row)))
    requires r4 == r3.With(EventsTable, r3.At(EventsTable) + If(o.Does(EventsTable), OrNone(events)))
    requires r5 == r4.With(ChangesTable, r4.At(ChangesTable) + If(o.Does(ChangesTable), Rows(x, ChangeFieldsOf(changes.changes))))
    requires r6 == r5.With(ResourcesTable, r5.At(ResourcesTable) + If(o.Does(ResourcesTable), Rows(x, ResourceFieldsOf(changes.resources))))
    requires r7 == r6.With(ModulesTable, r6.At(ModulesTable) + If(o.Does(ModulesTable), Rows(x, ModuleFieldsOf(changes.modules))))
    requires r8 == r7.With(TableItemsTable, r7.At(TableItemsTable) + If(o.Does(TableItemsTable), Rows(x, TableItemFieldsOf(changes.tableItems))))
    ensures r8 == Append(r0, Assemble(o, x, signatures, block, row, events, changes))
  {
    hide If, Rows;
  }

  /** The loop's eight record buffers, each with its buffer of timestamps. */
  class Buffers {
    var rows: Records
    var times: ByTable<seq<UnixTimestamp>>

    /** Every timestamp buffer is the times of its record buffer. */
    ghost predicate Valid()
      reads this
    {
      forall t: Table :: times.At(t) == Times(rows.At(t))
    }

    constructor ()
      ensures Valid() && rows == Empty
    {
      rows := Empty;
      times := ByTable([], [], [], [], [], [], [], []);
    }

    /** The loop's pattern for one table: when it is on, extend its record buffer and its timestamp buffer. */
    method ExtendIf(on: bool, t: Table, more: seq<Row>)
      requires Valid()
      modifies this
      ensures Valid() && rows == old(rows).With(t, old(rows).At(t) + If(on, more))
    {
      if on {
        TimesAppend(rows.At(t), more);
        times := times.With(t, times.At(t) + Times(more));
        rows := rows.With(t, rows.At(t) + more);
      } else {
        SameRows(rows, rows.With(t, rows.At(t) + []));
      }
    }

    /** The loop's body for one transaction. */
    method Add(o: TableOptions, tx: Transaction) returns (r: Result<(), RecordError>)
      requires Valid()
      modifies this
      ensures Valid()
      ensures Convert(o, tx).Success? ==> r.Success? && rows == Append(old(rows), Convert(o, tx).value)
      ensures Convert(o, tx).Failure? ==> r == Failure(Convert(o, tx).error)
    {
      ConvertUnfolds(o, tx);
      hide *;
      var extraction := Extract(tx);
      if extraction.Failure? {
        return Failure(extraction.error);
      }
      var x := extraction.value;
      var signatures := SignaturesIf(o, x);
      if signatures.Failure? {
        return Failure(signatures.error);
      }
      ExtendIf(o.Does(SignaturesTable), SignaturesTable, OrNone(signatures.value));
      ghost var r1 := rows;
      var block := BlockIf(o, x);
      if block.Failure? {
        return Failure(block.error);
      }
      ExtendIf(o.Does(BlocksTable), BlocksTable, Single(block.value));
      ghost var r2 := rows;
      var row := TransactionIf(o, x, Count(signatures.value));
      if row.Failure? {
        return Failure(row.error);
      }
      ExtendIf(o.Does(TransactionsTable), TransactionsTable, Single(row.value));
      ghost var r3 := rows;
      var events := EventsIf(o, x);
      if events.Failure? {
        return Failure(events.error);
      }
      ExtendIf(o.Does(EventsTable), EventsTable, OrNone(events.value));
      ghost var r4 := rows;
      var changes := ChangesIf(o, x);
      if changes.Failure? {
        return Failure(changes.error);
      }
      ExtendIf(o.Does(ChangesTable), ChangesTable, Rows(x, ChangeFieldsOf(changes.value.changes)));
      ghost var r5 := rows;
      ExtendIf(o.Does(ResourcesTable), ResourcesTable, Rows(x, ResourceFieldsOf(changes.value.resources)));
      ghost var r6 := rows;
      ExtendIf(o.Does(ModulesTable), ModulesTable, Rows(x, ModuleFieldsOf(changes.value.modules)));
      ghost var r7 := rows;
      ExtendIf(o.Does(TableItemsTable), TableItemsTable, Rows(x, TableItemFieldsOf(changes.value.tableItems)));
      AppendSteps(old(rows), r1, r2, r3, r4, r5, r6, r7, rows, o, x, signatures.value, block.value, row.value, events.value, changes.value);
      return Success(());
    }
  }

  // The publisher

  /** A named batch handed to one table's publisher connection. */
  datatype Publication = Publication(table: Table, name: string, times: seq<UnixTimestamp>, rows: seq<Row>)

  class StreamPublisher {
    var published: seq<Publication>

    constructor ()
      ensures published == []
    {
      published := [];
    }

    /** `publish_records`. The batcher behind it requires one timestamp per record. */
    method PublishRecords(t: Table, rows: seq<Row>, name: string, times: seq<UnixTimestamp>)
      requires |times| == |rows|
      modifies `published
      ensures published == old(published) + [Publication(t, name, times, rows)]
    {
      published := published + [Publication(t, name, times, rows)];
    }
  }

  const PublishOrder :=
    [TransactionsTable, ChangesTable, ModulesTable, TableItemsTable, ResourcesTable, BlocksTable, EventsTable, SignaturesTable]

  function PublicationOf(t: Table, name: string, r: Records): Publication {
    Publication(t, name, Times(r.At(t)), r.At(t))
  }

  function PublishedIf(o: TableOptions, t: Table, name: string, r: Records): seq<Publication> {
    if o.Does(t) then [PublicationOf(t, name, r)] else []
  }

  /** The publications of the first n tables in order, enabled tables only. */
  function PublishUpTo(o: TableOptions, name: string, r: Records, n: nat): seq<Publication>
    requires n <= |PublishOrder|
  {
    if n == 0 then [] else PublishUpTo(o, name, r, n - 1) + PublishedIf(o, PublishOrder[n - 1], name, r)
  }

  function Publications(o: TableOptions, name: string, r: Records): seq<Publication> {
    PublishUpTo(o, name, r, |PublishOrder|)
  }

  function RangeName(start: nat, end: nat): string {
    Decimal(start) + "_" + Decimal(end)
  }

  lemma {:induction false} PublishNext(was: seq<Publication>, o: TableOptions, name: string, r: Records, n: nat)
    requires n < |PublishOrder|
    ensures was + PublishUpTo(o, name, r, n + 1) == (was + PublishUpTo(o, name, r, n)) + PublishedIf(o, PublishOrder[n], name, r)
  {
  }

  /** One table of the publish phase. */
  method PublishIf(b: Buffers, o: TableOptions, t: Table, name: string, publisher: StreamPublisher)
    requires b.Valid()
    modifies publisher`published
    ensures publisher.published == old(publisher.published) + PublishedIf(o, t, name, b.rows)
  {
    if o.Does(t) {
      publisher.PublishRecords(t, b.rows.At(t), name, b.times.At(t));
    }
  }

  /** The publish phase: one batch per enabled table, in this order. */
  method PublishAll(b: Buffers, o: TableOptions, name: string, publisher: StreamPublisher)
    requires b.Valid()
    modifies publisher`published
    ensures publisher.published == old(publisher.published) + Publications(o, name, b.rows)
  {
    ghost var r, was := b.rows, publisher.published;
    assert was + PublishUpTo(o, name, r, 0) == was;
    hide Times, PublishUpTo, PublishedIf;
    PublishIf(b, o, TransactionsTable, name, publisher);
    PublishNext(was, o, name, r, 0);
    PublishIf(b, o, ChangesTable, name, publisher);
    PublishNext(was, o, name, r, 1);
    PublishIf(b, o, ModulesTable, name, publisher);
    PublishNext(was, o, name, r, 2);
    PublishIf(b, o, TableItemsTable, name, publisher);
    PublishNext(was, o, name, r, 3);
    PublishIf(b, o, ResourcesTable, name, publisher);
    PublishNext(was, o, name, r, 4);
    PublishIf(b, o, BlocksTable, name, publisher);
    PublishNext(was, o, name, r, 5);
    PublishIf(b, o, EventsTable, name, publisher);
    PublishNext(was, o, name, r, 6);
    PublishIf(b, o, SignaturesTable, name, publisher);
    PublishNext(was, o, name, r, 7);
  }

  function PublishedWhen(switch: Option<bool>, t: Table, name: string, rows: seq<Row>): seq<Publication> {
    if switch == Some(true) then [Publication(t, name, Times(rows), rows)] else []
  }

  /** The publish phase, switch by switch: every table goes out under the range's name exactly when the switch of its own name
      is set and on, with its own buffer, in this order. */
  lemma {:induction false} PublishesBySwitch(o: TableOptions, name: string, r: Records)
    ensures Publications(o, name, r)
      == PublishedWhen(o.transactions, TransactionsTable, name, r.transactions)
      + PublishedWhen(o.changes, ChangesTable, name, r.changes)
      + PublishedWhen(o.modules, ModulesTable, name, r.modules)
      + PublishedWhen(o.tableItems, TableItemsTable, name, r.tableItems)
      + PublishedWhen(o.resources, ResourcesTable, name, r.resources)
      + PublishedWhen(o.blocks, BlocksTable, name, r.blocks)
      + PublishedWhen(o.events, EventsTable, name, r.events)
      + PublishedWhen(o.signatures, SignaturesTable, name, r.signatures)
  {
    hide Times, PublishedIf, PublishedWhen;
    forall t: Table { PublishedIsWhen(o, t, name, r); }
    assert PublishUpTo(o, name, r, 0) == [];
    assert PublishUpTo(o, name, r, 1) == PublishedIf(o, TransactionsTable, name, r);
    assert PublishUpTo(o, name, r, 2) == PublishUpTo(o, name, r, 1) + PublishedIf(o, ChangesTable, name, r);
    assert PublishUpTo(o, name, r, 3) == PublishUpTo(o, name, r, 2) + PublishedIf(o, ModulesTable, name, r);
    assert PublishUpTo(o, name, r, 4) == PublishUpTo(o, name, r, 3) + PublishedIf(o, TableItemsTable, name, r);
    assert PublishUpTo(o, name, r, 5) == PublishUpTo(o, name, r, 4) + PublishedIf(o, ResourcesTable, name, r);
    assert PublishUpTo(o, name, r, 6) == PublishUpTo(o, name, r, 5) + PublishedIf(o, BlocksTable, name, r);
    assert PublishUpTo(o, name, r, 7) == PublishUpTo(o, name, r, 6) + PublishedIf(o, EventsTable, name, r);
    assert PublishUpTo(o, name, r, 8) == PublishUpTo(o, name, r, 7) + PublishedIf(o, SignaturesTable, name, r);
  }

  function SwitchOf(o: TableOptions, t: Table): Option<bool> {
    match t
    case TransactionsTable => o.transactions
    case ChangesTable => o.changes
    case ModulesTable => o.modules
    case TableItemsTable => o.tableItems
    case ResourcesTable => o.resources
    case BlocksTable => o.blocks
    case EventsTable => o.events
    case SignaturesTable => o.signatures
  }

  /** A switch that is not set, or set to off, leaves its table out; it takes `Some(true)` to switch it on. */
  lemma {:induction false} DoesExactly(o: TableOptions, t: Table)
    ensures o.Does(t) <==> SwitchOf(o, t) == Some(true)
  {
  }

  lemma {:induction false} PublishedIsWhen(o: TableOptions, t: Table, name: string, r: Records)
    ensures PublishedIf(o, t, name, r) == PublishedWhen(SwitchOf(o, t), t, name, r.At(t))
  {
    hide Times;
    DoesExactly(o, t);
  }

  const AllOff := TableOptions(None, None, None, None, None, None, None, None)

  /** Options with a single switch on publish that one table. */
  lemma {:induction false} OneSwitchOneTable(name: string, r: Records)
    ensures Publications(AllOff.(blocks := Some(true)), name, r) == [Publication(BlocksTable, name, Times(r.blocks), r.blocks)]
    ensures Publications(AllOff.(transactions := Some(true)), name, r)
      == [Publication(TransactionsTable, name, Times(r.transactions), r.transactions)]
    ensures Publications(AllOff.(events := Some(true)), name, r) == [Publication(EventsTable, name, Times(r.events), r.events)]
    ensures Publications(AllOff.(changes := Some(true)), name, r) == [Publication(ChangesTable, name, Times(r.changes), r.changes)]
    ensures Publications(AllOff.(modules := Some(true)), name, r) == [Publication(ModulesTable, name, Times(r.modules), r.modules)]
    ensures Publications(AllOff.(tableItems := Some(true)), name, r)
      == [Publication(TableItemsTable, name, Times(r.tableItems), r.tableItems)]
    ensures Publications(AllOff.(resources := Some(true)), name, r)
      == [Publication(ResourcesTable, name, Times(r.resources), r.resources)]
    ensures Publications(AllOff.(signatures := Some(true)), name, r)
      == [Publication(SignaturesTable, name, Times(r.signatures), r.signatures)]
  {
    hide Times, Publications;
    PublishesBySwitch(AllOff.(blocks := Some(true)), name, r);
    PublishesBySwitch(AllOff.(transactions := Some(true)), name, r);
    PublishesBySwitch(AllOff.(events := Some(true)), name, r);
    PublishesBySwitch(AllOff.(changes := Some(true)), name, r);
    PublishesBySwitch(AllOff.(modules := Some(true)), name, r);
    PublishesBySwitch(AllOff.(tableItems := Some(true)), name, r);
    PublishesBySwitch(AllOff.(resources := Some(true)), name, r);
    PublishesBySwitch(AllOff.(signatures := Some(true)), name, r);
  }

  // The stream loop

  datatype LoopError = StreamCreation(cause: string) | Status(status: string) | InRecord(record: RecordError)

  datatype Interruption = Interruption(cause: LoopError, start: nat, end: nat, version: nat)

  /** One pull: a response or a status error. Past the last pull the stream is exhausted. */
  datatype Pull = Response(transactions: seq<Transaction>) | Broken(status: string)

  /** How the loop ends: at the last version, on a stream that ran dry, or on an error at a version. */
  datatype Ending = Reached(records: Records) | Exhausted | Stopped(cause: LoopError, version: nat)

  datatype Progress = Going(records: Records, version: nat) | Failed(cause: RecordError, at: nat)

  /** One response: stops after the end version, or at the first transaction that fails. */
  function RunResponse(o: TableOptions, end: nat, txs: seq<Transaction>, cur: nat, acc: Records): Progress {
    if txs == [] then Going(acc, cur)
    else
      match Convert(o, txs[0])
      case Failure(e) => Failed(e, txs[0].version)
      case Success(r) =>
        if txs[0].version == end then Going(Append(acc, r), end)
        else RunResponse(o, end, txs[1..], txs[0].version, Append(acc, r))
  }

  /** The loop over responses, from current version cur with acc in the buffers. */
  function RunStream(o: TableOptions, end: nat, pulls: seq<Pull>, cur: nat, acc: Records): Ending {
    if pulls == [] then Exhausted
    else
      match pulls[0]
      case Broken(status) => Stopped(Status(status), cur)
      case Response(txs) =>
        match RunResponse(o, end, txs, cur, acc)
        case Failed(e, at) => Stopped(InRecord(e), at)
        case Going(acc', cur') => if cur' == end then Reached(acc') else RunStream(o, end, pulls[1..], cur', acc')
  }

  /** What a call returns and publishes. */
  datatype Outcome = Outcome(result: Result<(), Interruption>, published: seq<Publication>)

  function OutcomeOf(o: TableOptions, start: nat, end: nat, ending: Ending): Outcome {
    match ending
    case Reached(records) => Outcome(Success(()), Publications(o, RangeName(start, end), records))
    case Exhausted => Outcome(Success(()), [])
    case Stopped(e, version) => Outcome(Failure(Interruption(e, start, end, version)), [])
  }

  /** The whole call, when the stream could be created. */
  function RunRange(o: TableOptions, start: nat, end: nat, pulls: seq<Pull>): Outcome {
    OutcomeOf(o, start, end, RunStream(o, end, pulls, start, Empty))
  }

  /** The inner loop over one response's transactions. */
  method ExtractResponse(b: Buffers, o: TableOptions, end: nat, txs: seq<Transaction>, start: nat)
    returns (failed: Option<RecordError>, cur: nat)
    requires b.Valid()
    modifies b
    ensures b.Valid()
    ensures RunResponse(o, end, txs, start, old(b.rows)) ==
      if failed.Some? then Failed(failed.value, cur) else Going(b.rows, cur)
  {
    hide Convert, Append;
    cur := start;
    var i := 0;
    assert txs[0..] == txs;
    while i < |txs|
      invariant i <= |txs| && b.Valid()
      invariant RunResponse(o, end, txs, start, old(b.rows)) == RunResponse(o, end, txs[i..], cur, b.rows)
    {
      assert txs[i..][1..] == txs[i + 1..];
      cur := txs[i].version;
      var added := b.Add(o, txs[i]);
      if added.Failure? {
        return Some(added.error), cur;
      }
      if cur == end {
        return None, cur;
      }
      i := i + 1;
    }
    return None, cur;
  }

  /** `extract_range`. */
  method ExtractRange(start: nat, end: nat, stream: Result<seq<Pull>, string>, tableOptions: Option<TableOptions>,
                      publisher: StreamPublisher)
    returns (r: Result<(), Interruption>)
    requires start <= end
    modifies publisher`published
    ensures stream.Success? ==>
      var out := RunRange(tableOptions.GetOr(NewAll), start, end, stream.value);
      r == out.result && publisher.published == old(publisher.published) + out.published
    ensures stream.Failure? ==>
      r == Failure(Interruption(StreamCreation(stream.error), start, end, start)) && publisher.published == old(publisher.published)
  {
    hide RunResponse, Publications;
    var o := match tableOptions case Some(opts) => opts case None => NewAll;
    var cur := start;
    if stream.Failure? {
      return Failure(Interruption(StreamCreation(stream.error), start, end, cur));
    }
    var pulls := stream.value;
    var b := new Buffers();
    var i := 0;
    assert pulls[0..] == pulls;
    while true
      invariant i <= |pulls| && b.Valid() && fresh(b) && publisher.published == old(publisher.published)
      invariant RunStream(o, end, pulls, start, Empty) == RunStream(o, end, pulls[i..], cur, b.rows)
      decreases |pulls| - i
    {
      if i == |pulls| {
        return Success(());
      }
      assert pulls[i..][1..] == pulls[i + 1..];
      if pulls[i].Broken? {
        return Failure(Interruption(Status(pulls[i].status), start, end, cur));
      }
      var failed;
      failed, cur := ExtractResponse(b, o, end, pulls[i].transactions, cur);
      if failed.Some? {
        return Failure(Interruption(InRecord(failed.value), start, end, cur));
      }
      if cur == end {
        break;
      }
      i := i + 1;
    }
    PublishAll(b, o, RangeName(start, end), publisher);
    return Success(());
  }

  // What the loop promises

  /** The transactions of the responses before the first status error, in stream order. */
  function Flat(pulls: seq<Pull>): seq<Transaction> {
    if pulls == [] || pulls[0].Broken? then [] else pulls[0].transactions + Flat(pulls[1..])
  }

  /** The first status error. */
  function FirstStatus(pulls: seq<Pull>): Option<string> {
    if pulls == [] then None
    else if pulls[0].Broken? then Some(pulls[0].status)
    else FirstStatus(pulls[1..])
  }

  /** Versions count up by one from v. */
  predicate InOrder(txs: seq<Transaction>, v: nat) {
    forall i :: 0 <= i < |txs| ==> txs[i].version == v + i
  }

  /** The fold of Convert over a list of transactions. */
  function ExtractAll(o: TableOptions, txs: seq<Transaction>, acc: Records): Progress {
    if txs == [] then Going(acc, 0)
    else
      match Convert(o, txs[0])
      case Failure(e) => Failed(e, txs[0].version)
      case Success(r) => ExtractAll(o, txs[1..], Append(acc, r))
  }

  lemma {:induction false} ExtractAllSplits(o: TableOptions, a: seq<Transaction>, b: seq<Transaction>, acc: Records)
    ensures ExtractAll(o, a + b, acc) ==
      match ExtractAll(o, a, acc)
      case Going(acc', _) => ExtractAll(o, b, acc')
      case failed => failed
  {
    hide Convert, Append;
    if a == [] {
      assert a + b == b;
    } else {
      assert (a + b)[1..] == a[1..] + b;
      match Convert(o, a[0]) {
        case Success(r) => ExtractAllSplits(o, a[1..], b, Append(acc, r));
        case Failure(_) =>
      }
    }
  }

  /** How many of the n transactions from version v the loop takes before it stops at end. */
  function Taken(n: nat, v: nat, end: nat): nat
    requires v <= end
  {
    if n <= end - v then n else end - v + 1
  }

  lemma {:induction false} RunResponseInOrder(o: TableOptions, end: nat, txs: seq<Transaction>, v: nat, cur: nat, acc: Records)
    requires v <= end && InOrder(txs, v)
    ensures
      var taken := Taken(|txs|, v, end);
      RunResponse(o, end, txs, cur, acc) ==
      match ExtractAll(o, txs[..taken], acc)
      case Failed(e, at) => Failed(e, at)
      case Going(acc', _) => Going(acc', if taken == 0 then cur else v + taken - 1)
  {
    hide Convert, Append;
    if txs != [] {
      var taken := Taken(|txs|, v, end);
      assert txs[..taken][1..] == txs[1..][..taken - 1];
      match Convert(o, txs[0]) {
        case Failure(_) =>
        case Success(r) =>
          if v < end {
            RunResponseInOrder(o, end, txs[1..], v + 1, v, Append(acc, r));
          }
      }
    }
  }

  /** A first response that is empty ends a one-version range before its transaction arrives. */
  predicate StopsEmpty(pulls: seq<Pull>, cur: nat, end: nat) {
    cur == end && pulls != [] && pulls[0] == Response([])
  }

  lemma {:induction false} FlatInOrder(pulls: seq<Pull>, v: nat)
    requires pulls != [] && pulls[0].Response? && InOrder(Flat(pulls), v)
    ensures Flat(pulls) == pulls[0].transactions + Flat(pulls[1..])
    ensures InOrder(pulls[0].transactions, v) && InOrder(Flat(pulls[1..]), v + |pulls[0].transactions|)
  {
    var txs, rest := pulls[0].transactions, Flat(pulls[1..]);
    assert forall i :: 0 <= i < |txs| ==> Flat(pulls)[i] == txs[i];
    assert forall i :: 0 <= i < |rest| ==> Flat(pulls)[|txs| + i] == rest[i];
  }

  lemma {:induction false} RunStreamUnfolds(o: TableOptions, end: nat, pulls: seq<Pull>, cur: nat, acc: Records)
    requires pulls != [] && pulls[0].Response?
    ensures RunStream(o, end, pulls, cur, acc) ==
      match RunResponse(o, end, pulls[0].transactions, cur, acc)
      case Failed(e, at) => Stopped(InRecord(e), at)
      case Going(acc', cur') => if cur' == end then Reached(acc') else RunStream(o, end, pulls[1..], cur', acc')
  {
    hide RunResponse;
  }

  /** How the loop ends once its transactions have been converted into acc. */
  function EndingOf(pulls: seq<Pull>, n: nat, acc: Records, v: nat, cur: nat, end: nat): Ending {
    if n > end - v then Reached(acc)
    else
      match FirstStatus(pulls)
      case Some(status) => Stopped(Status(status), if n == 0 then cur else v + n - 1)
      case None => Exhausted
  }

  /** However an in-order stream is cut into responses, the loop folds Convert over its transactions up to the end
      version; short of it, a status error stops the loop and a stream without one runs dry. */
  lemma {:induction false} RunInOrder(o: TableOptions, end: nat, pulls: seq<Pull>, v: nat, cur: nat, acc: Records)
    requires v <= end && InOrder(Flat(pulls), v) && !StopsEmpty(pulls, cur, end)
    requires cur != end || v == end
    ensures
      RunStream(o, end, pulls, cur, acc) ==
      match ExtractAll(o, Flat(pulls)[..Taken(|Flat(pulls)|, v, end)], acc)
      case Failed(e, at) => Stopped(InRecord(e), at)
      case Going(acc', _) => EndingOf(pulls, |Flat(pulls)|, acc', v, cur, end)
  {
    hide RunStream, RunResponse, ExtractAll, Convert, Append, InOrder, Flat, FirstStatus;
    var flat := Flat(pulls);
    var taken := Taken(|flat|, v, end);
    if pulls == [] || pulls[0].Broken? {
      RunNothing(o, end, pulls, cur, acc);
      assert flat[..taken] == [];
    } else {
      var txs, rest := pulls[0].transactions, Flat(pulls[1..]);
      FlatInOrder(pulls, v);
      StatusAfter(pulls);
      RunStreamUnfolds(o, end, pulls, cur, acc);
      RunResponseInOrder(o, end, txs, v, cur, acc);
      if |txs| > end - v {
        assert flat[..taken] == txs[..taken];
      } else {
        assert txs[..|txs|] == txs;
        assert flat[..taken] == txs + rest[..taken - |txs|];
        ExtractAllSplits(o, txs, rest[..taken - |txs|], acc);
        match ExtractAll(o, txs, acc) {
          case Failed(_, _) =>
          case Going(acc', _) =>
            RunInOrder(o, end, pulls[1..], v + |txs|, if txs == [] then cur else v + |txs| - 1, acc');
        }
      }
    }
  }

  lemma {:induction false} RunNothing(o: TableOptions, end: nat, pulls: seq<Pull>, cur: nat, acc: Records)
    requires pulls == [] || pulls[0].Broken?
    ensures Flat(pulls) == [] && ExtractAll(o, [], acc) == Going(acc, 0)
    ensures RunStream(o, end, pulls, cur, acc) == match FirstStatus(pulls)
                                                  case Some(status) => Stopped(Status(status), cur)
                                                  case None => Exhausted
  {
  }

  lemma {:induction false} StatusAfter(pulls: seq<Pull>)
    requires pulls != [] && pulls[0].Response?
    ensures FirstStatus(pulls) == FirstStatus(pulls[1..])
  {
  }

  // What is published

  predicate AllConvert(o: TableOptions, txs: seq<Transaction>) {
    forall i :: 0 <= i < |txs| ==> Convert(o, txs[i]).Success?
  }

  /** The k-th transaction is the first that fails. */
  predicate FailsFirst(o: TableOptions, txs: seq<Transaction>, k: nat) {
    k < |txs| && Convert(o, txs[k]).Failure? && forall i :: 0 <= i < k ==> Convert(o, txs[i]).Success?
  }

  /** The in-order concatenation of every transaction's rows of one table. */
  function TableRows(txs: seq<Transaction>, t: Table): seq<Row> {
    if txs == [] then [] else Given(t, txs[0]) + TableRows(txs[1..], t)
  }

  /** The fold yields, for every enabled table, that table's rows of every transaction in order. */
  lemma {:induction false} ExtractAllRefines(o: TableOptions, txs: seq<Transaction>, acc: Records)
    requires AllConvert(o, txs)
    ensures ExtractAll(o, txs, acc).Going?
    ensures forall t: Table :: ExtractAll(o, txs, acc).records.At(t) == acc.At(t) + If(o.Does(t), TableRows(txs, t))
  {
    hide Convert, Given, Append;
    if txs != [] {
      ConvertExactly(o, txs[0]);
      ExtractAllRefines(o, txs[1..], Append(acc, Convert(o, txs[0]).value));
    }
  }

  /** A fold that fails carries the error and the version of the first transaction that fails. */
  lemma {:induction false} ExtractAllFails(o: TableOptions, txs: seq<Transaction>, acc: Records, k: nat)
    requires FailsFirst(o, txs, k)
    ensures ExtractAll(o, txs, acc) == Failed(Convert(o, txs[k]).error, txs[k].version)
    decreases k
  {
    hide Convert, Append;
    if k > 0 {
      assert forall i :: 0 <= i < |txs| - 1 ==> txs[1..][i] == txs[i + 1];
      ExtractAllFails(o, txs[1..], Append(acc, Convert(o, txs[0]).value), k - 1);
    }
  }

  lemma {:induction false} FirstFailure(o: TableOptions, txs: seq<Transaction>) returns (k: nat)
    requires !AllConvert(o, txs)
    ensures FailsFirst(o, txs, k)
  {
    hide Convert;
    if Convert(o, txs[0]).Failure? {
      k := 0;
    } else {
      assert forall i :: 0 <= i < |txs| - 1 ==> txs[1..][i] == txs[i + 1];
      k := FirstFailure(o, txs[1..]);
      k := k + 1;
    }
  }

  /** A stream that delivers versions start..end in order; what follows them does not matter. */
  predicate Delivers(pulls: seq<Pull>, start: nat, end: nat) {
    start <= end && InOrder(Flat(pulls), start) && |Flat(pulls)| > end - start
  }

  function RangeTransactions(pulls: seq<Pull>, start: nat, end: nat): seq<Transaction>
    requires Delivers(pulls, start, end)
  {
    Flat(pulls)[..end - start + 1]
  }

  /** The rows the range's transactions give table by table. */
  ghost predicate HoldsTransactions(r: Records, txs: seq<Transaction>, o: TableOptions) {
    forall t: Table :: r.At(t) == If(o.Does(t), TableRows(txs, t))
  }

  /** Main result: on an in-order stream any options succeed exactly when the enabled tables of every transaction do,
      and then publish exactly those tables' rows, in order. */
  lemma {:induction false} RangePublishesItsRows(o: TableOptions, start: nat, end: nat, pulls: seq<Pull>)
    requires Delivers(pulls, start, end) && !StopsEmpty(pulls, start, end)
    ensures RunRange(o, start, end, pulls).result.Success? <==> AllConvert(o, RangeTransactions(pulls, start, end))
    ensures AllConvert(o, RangeTransactions(pulls, start, end)) ==>
      var ending := RunStream(o, end, pulls, start, Empty);
      && ending.Reached? && HoldsTransactions(ending.records, RangeTransactions(pulls, start, end), o)
      && RunRange(o, start, end, pulls) == Outcome(Success(()), Publications(o, RangeName(start, end), ending.records))
  {
    hide RunStream, ExtractAll, Convert, AllConvert, Publications, RangeName, StopsEmpty, InOrder, TableRows;
    var txs := RangeTransactions(pulls, start, end);
    RunInOrder(o, end, pulls, start, start, Empty);
    if AllConvert(o, txs) {
      ExtractAllRefines(o, txs, Empty);
    } else {
      var k := FirstFailure(o, txs);
      ExtractAllFails(o, txs, Empty, k);
    }
  }

  /** Otherwise nothing is published, and the error names the first transaction whose enabled tables fail. */
  lemma {:induction false} FailureNamesFirstTransaction(o: TableOptions, start: nat, end: nat, pulls: seq<Pull>)
    requires Delivers(pulls, start, end) && !StopsEmpty(pulls, start, end)
    requires !AllConvert(o, RangeTransactions(pulls, start, end))
    ensures exists k ::
      && FailsFirst(o, RangeTransactions(pulls, start, end), k)
      && RunRange(o, start, end, pulls) == FailedOutcome(o, RangeTransactions(pulls, start, end), start, end, k)
  {
    hide RunStream, ExtractAll, Convert, AllConvert, Publications;
    var txs := RangeTransactions(pulls, start, end);
    RunInOrder(o, end, pulls, start, start, Empty);
    var k := FirstFailure(o, txs);
    ExtractAllFails(o, txs, Empty, k);
    assert FailsFirst(o, txs, k) && RunRange(o, start, end, pulls) == FailedOutcome(o, txs, start, end, k);
  }

  function FailedOutcome(o: TableOptions, txs: seq<Transaction>, start: nat, end: nat, k: nat): Outcome
    requires FailsFirst(o, txs, k)
  {
    Outcome(Failure(Interruption(InRecord(Convert(o, txs[k]).error), start, end, txs[k].version)), [])
  }

  /** An in-order stream that runs dry before the end version: the call reports success and publishes nothing. */
  lemma {:induction false} ExhaustedPublishesNothing(o: TableOptions, start: nat, end: nat, pulls: seq<Pull>)
    requires start <= end && InOrder(Flat(pulls), start) && |Flat(pulls)| <= end - start && FirstStatus(pulls).None?
    requires !StopsEmpty(pulls, start, end) && AllConvert(o, Flat(pulls))
    ensures RunRange(o, start, end, pulls) == Outcome(Success(()), [])
  {
    hide RunStream, ExtractAll, Convert, AllConvert;
    RunInOrder(o, end, pulls, start, start, Empty);
    assert Flat(pulls)[..|Flat(pulls)|] == Flat(pulls);
    ExtractAllRefines(o, Flat(pulls), Empty);
  }

  lemma {:induction false} StopsEmptyReaches(o: TableOptions, end: nat, pulls: seq<Pull>)
    requires StopsEmpty(pulls, end, end)
    ensures RunStream(o, end, pulls, end, Empty) == Reached(Empty)
  {
  }

  /** An in-order stream's rows reach the publish phase exactly unless an empty response comes first for a single
      version whose enabled tables have rows; it has one in the transactions table, when that is on. */
  lemma {:induction false} PublishedExactlyUnlessEmptyFirst(o: TableOptions, start: nat, end: nat, pulls: seq<Pull>)
    requires Delivers(pulls, start, end) && AllConvert(o, RangeTransactions(pulls, start, end))
    ensures RunStream(o, end, pulls, start, Empty).Reached?
    ensures HoldsTransactions(RunStream(o, end, pulls, start, Empty).records, RangeTransactions(pulls, start, end), o)
      <==> !StopsEmpty(pulls, start, end) || HoldsTransactions(Empty, RangeTransactions(pulls, start, end), o)
    ensures StopsEmpty(pulls, start, end) && o.Does(TransactionsTable) ==>
      !HoldsTransactions(RunStream(o, end, pulls, start, Empty).records, RangeTransactions(pulls, start, end), o)
  {
    hide Convert, AllConvert, RunStream, HoldsTransactions, InOrder, Flat, StopsEmpty;
    if o.Does(TransactionsTable) {
      TransactionsAlwaysHaveRows(o, RangeTransactions(pulls, start, end));
    }
    if StopsEmpty(pulls, start, end) {
      SingleVersion(pulls, start, end);
      StopsEmptyReaches(o, end, pulls);
    } else {
      RangePublishesItsRows(o, start, end, pulls);
    }
  }

  lemma {:induction false} SingleVersion(pulls: seq<Pull>, start: nat, end: nat)
    requires StopsEmpty(pulls, start, end)
    ensures start == end
  {
  }

  /** With the transactions table on, an empty response before a single version always loses its row. */
  lemma {:induction false} TransactionsAlwaysHaveRows(o: TableOptions, txs: seq<Transaction>)
    requires o.Does(TransactionsTable) && AllConvert(o, txs) && txs != []
    ensures !HoldsTransactions(Empty, txs, o)
  {
    hide Convert, Given;
    ConvertExactly(o, txs[0]);
    TransactionsRowGiven(txs[0]);
    assert TableRows(txs, TransactionsTable) != [] == Empty.At(TransactionsTable);
  }

  lemma {:induction false} TransactionsRowGiven(tx: Transaction)
    requires RowsFor(TransactionsTable, tx).Success?
    ensures |Given(TransactionsTable, tx)| == 1
  {
    hide RowsFor;
    RowsForAreFiled(TransactionsTable, tx);
  }

  /** Whatever is published has one time per row, the row's own: the batcher's length check holds. */
  lemma {:induction false} PublishedTimesMatch(o: TableOptions, name: string, r: Records, n: nat)
    requires n <= |PublishOrder|
    ensures forall i :: 0 <= i < |PublishUpTo(o, name, r, n)| ==>
      && PublishUpTo(o, name, r, n)[i].times == Times(PublishUpTo(o, name, r, n)[i].rows)
      && PublishUpTo(o, name, r, n)[i].rows == r.At(PublishUpTo(o, name, r, n)[i].table)
      && o.Does(PublishUpTo(o, name, r, n)[i].table)
  {
    if n > 0 {
      PublishedTimesMatch(o, name, r, n - 1);
    }
  }

  lemma {:induction false} EnabledPrefix(o: TableOptions, name: string, r: Records, n: nat, t: Table)
    requires n <= |PublishOrder| && o.Does(t) && t in PublishOrder[..n]
    ensures PublicationOf(t, name, r) in PublishUpTo(o, name, r, n)
  {
    if PublishOrder[n - 1] != t {
      EnabledPrefix(o, name, r, n - 1, t);
    }
  }

  /** Every enabled table is published, under the range's name. */
  lemma {:induction false} EnabledTablesPublished(o: TableOptions, name: string, r: Records, t: Table)
    requires o.Does(t)
    ensures PublicationOf(t, name, r) in Publications(o, name, r)
  {
    assert PublishOrder[match t
                        case TransactionsTable => 0 case ChangesTable => 1 case ModulesTable => 2 case TableItemsTable => 3
                        case ResourcesTable => 4 case BlocksTable => 5 case EventsTable => 6 case SignaturesTable => 7] == t;
    assert PublishOrder[..|PublishOrder|] == PublishOrder;
    EnabledPrefix(o, name, r, |PublishOrder|, t);
  }
}
