/**
 SELECT and INSERT (src/executor.c) over a volume whose index file may hold anything.
 Query results are sequences of projected rows.
 */
module Executor {
  import opened Bytes
  import opened Layout
  import opened Journal
  import opened Disk
  import P = Protocol
  import opened CrashSafety
  import opened StaleHandle
  import opened Atomicity
  import opened BlindOpen
  import opened Keys
  import opened Storage
  import opened StatementRuns
  import opened ChainedIndex
  import opened IndexFile
  import opened IndexStore
  import opened Sql
  import opened Query

  // ----- SELECT -----

  datatype ExecStatus =
    | ExecOk
    | ExecSemanticError
    | ExecTableCorrupt
    | ExecDuplicateId
    | ExecIoError
    | ExecIndexError
    | ExecIndexPersistFailed
    | ExecReadOnly

  datatype SelectIndexResult = SelectIndexError | SelectIndexNotUsed | SelectIndexRowPrinted

  /** The rows of the table as its header counts them. */
  ghost function TableRows(volume: Volume): (rows: seq<Row>)
    requires ReadHeader(volume.table.Now()).Good?
    reads volume`table
  {
    Decoded(volume.table.Now(), ReadHeader(volume.table.Now()).count)
  }

  /** `select_with_index`: a row is printed only after the table has confirmed it. */
  method SelectWithIndex(volume: Volume, table: Table, q: SelectQuery)
    returns (result: SelectIndexResult, output: seq<seq<Field>>)
    requires volume.Valid() && volume.CountsHeader(table, false)
    modifies volume`index, volume`entries, volume`world, volume`history
    ensures volume.Valid() && NoInsertSince(old(volume.history), volume.history)
    ensures volume.world == old(volume.world).(entries := volume.world.entries)
    ensures volume.world.Journal() == old(volume.world.Journal())
    ensures result == SelectIndexError ==> !Distinct(IdsOf(TableRows(volume)))
    ensures result == SelectIndexRowPrinted && Distinct(IdsOf(TableRows(volume))) ==>
              output == Answer(TableRows(volume), q)
    ensures volume.index == old(volume.index) || HoldsExact(volume.index, TableIds(volume))
    ensures Undisturbed(volume) && Distinct(TableIds(volume)) && ExactOrRefused(old(volume.index), TableIds(volume))
            && q.hasWhere && q.whereColumn == "id" && ParseInt32(q.whereValue).Some?
            && ParseInt32(q.whereValue).value in TableIds(volume) ==>
              result == SelectIndexRowPrinted
  {
    output := [];
    if !q.hasWhere || ColumnFromName(q.whereColumn) != ColumnId { return SelectIndexNotUsed, []; }
    var searched := ParseInt32(q.whereValue);
    if searched.None? { return SelectIndexNotUsed, []; }
    hide ReadHeader, Distinct, IdsOf, ParseInt32, ColumnFromName, Decoded, ExactOrRefused, P.Runs, NoInsertSince,
      Answer;
    var status, row := SearchIndex(volume, table, searched.value);
    if status == IndexDuplicatePrimaryKey { return SelectIndexError, []; }
    if status != IndexOk { return SelectIndexNotUsed, []; }
    ghost var rows := TableRows(volume);
    ghost var k :| 0 <= k < |rows| && row == rows[k] && row.id == searched.value;
    if Distinct(IdsOf(rows)) { OnlyAnswer(rows, q, k); }
    return SelectIndexRowPrinted, [Project(row, q)];
  }

  lemma OnlyAnswer(rows: seq<Row>, q: SelectQuery, k: nat)
    requires Distinct(IdsOf(rows)) && k < |rows|
    requires q.hasWhere && ColumnFromName(q.whereColumn) == ColumnId && ParseInt32(q.whereValue) == Some(rows[k].id)
    ensures Answer(rows, q) == [Project(rows[k], q)]
  {
    hide Distinct, IdsOf, ParseInt32, ColumnFromName, Project;
    OnlyMatch(rows, q, k);
    SingleProjection(rows[k], q);
  }

  /** Load or rebuild the index, look the key up, and have the table confirm what is found. */
  method SearchIndex(volume: Volume, table: Table, key: int32) returns (status: IndexStatus, row: Row)
    requires volume.Valid() && volume.CountsHeader(table, false)
    modifies volume`index, volume`entries, volume`world, volume`history
    ensures volume.Valid() && NoInsertSince(old(volume.history), volume.history)
    ensures volume.world == old(volume.world).(entries := volume.world.entries)
    ensures volume.world.Journal() == old(volume.world.Journal())
    ensures status == IndexDuplicatePrimaryKey ==> !Distinct(TableIds(volume))
    ensures status == IndexOk ==>
              exists k :: 0 <= k < |TableRows(volume)| && row == TableRows(volume)[k] && row.id == key
    ensures volume.index == old(volume.index) || HoldsExact(volume.index, TableIds(volume))
    ensures Undisturbed(volume) && Distinct(TableIds(volume)) && ExactOrRefused(old(volume.index), TableIds(volume))
            && key in TableIds(volume) ==>
              status == IndexOk
  {
    hide ReadHeader, LoadIndex, Distinct, Index.Valid, Decoded, TrueOffset, TrueSize, ExactOrRefused, HoldsExact,
      P.Runs;
    row := Row(0, Zeros(NAME_SIZE));
    AcceptedHeader(volume.table.Now());
    var index;
    status, index := LoadOrRebuild(volume);
    if status != IndexOk { return; }
    var offset;
    status, offset := index.Lookup(key);
    if status != IndexOk { return; }
    status, row := ValidateLookup(table, key, offset);
    ghost var rows := TableRows(volume);
    assert rows == Decoded(table.Image(), table.rowCount);
    if status == IndexOk {
      ghost var k :| 0 <= k < table.rowCount && row == Decoded(table.Image(), table.rowCount)[k] && row.id == key;
      assert row == rows[k];
    }
  }

  /** `select_with_scan`. */
  method SelectWithScan(table: Table, q: SelectQuery) returns (status: ExecStatus, output: seq<seq<Field>>)
    requires table.Sized()
    ensures status == ExecOk || status == ExecIoError
    ensures table.volume.reliable ==> status == ExecOk
    ensures status == ExecOk ==> output == Answer(Decoded(table.Image(), table.rowCount), q)
  {
    hide RowMatches, Project, Decoded, TrueOffset, TrueSize, Printed, Table.Sized, Deserialize, SlotAt;
    output := [];
    var scan := new RowScanner(table);
    ghost var rows := Decoded(table.Image(), table.rowCount);
    PrintedNothing(rows, q);
    var s, row, at := scan.Next();
    while s == ScanOk
      invariant scan.table == table && scan.rowCount == table.rowCount && scan.nextRow <= scan.rowCount && fresh(scan)
      invariant s == ScanOk ==> scan.nextRow > 0 && row == rows[scan.nextRow - 1]
                                && Printed(rows, scan.nextRow - 1, q, output)
      invariant s == ScanEnd ==> scan.nextRow == scan.rowCount && Printed(rows, scan.nextRow, q, output)
      invariant s == ScanOk || s == ScanEnd || (s == ScanIoError && !table.volume.reliable)
      decreases scan.rowCount - scan.nextRow, if s == ScanOk then 1 else 0
    {
      PrintedOne(rows, scan.nextRow - 1, q, output);
      if RowMatches(row, q) { output := output + [Project(row, q)]; }
      s, row, at := scan.Next();
    }
    PrintedAll(rows, q, output);
    status := if s == ScanEnd then ExecOk else ExecIoError;
  }

  /** `output` is the answer from the first n rows. */
  ghost predicate Printed(rows: seq<Row>, n: nat, q: SelectQuery, output: seq<seq<Field>>) {
    n <= |rows| && output == Answer(rows[..n], q)
  }

  lemma PrintedNothing(rows: seq<Row>, q: SelectQuery)
    ensures Printed(rows, 0, q, [])
  {
  }

  lemma PrintedAll(rows: seq<Row>, q: SelectQuery, output: seq<seq<Field>>)
    ensures Printed(rows, |rows|, q, output) ==> output == Answer(rows, q)
  {
    assert rows[..|rows|] == rows;
  }

  lemma PrintedOne(rows: seq<Row>, n: nat, q: SelectQuery, output: seq<seq<Field>>)
    requires n < |rows| && Printed(rows, n, q, output)
    ensures Printed(rows, n + 1, q, if RowMatches(rows[n], q) then output + [Project(rows[n], q)] else output)
  {
    hide Answer, RowMatches, Project;
    AnswerStep(rows, n, q);
  }

  /**
   `execute_select`. For a table with unique ids the answer is the plain scan's, whatever
   the index file holds; it never blames the table for what is wrong with the index. `tested`
   tells whether its open could test for a journal; if so, there is none.
   */
  method ExecuteSelect(volume: Volume, q: SelectQuery)
    returns (status: ExecStatus, output: seq<seq<Field>>, ghost tested: bool, ghost atOpen: TableStatus)
    requires volume.Valid()
    modifies volume`index, volume`entries, volume`world, volume`history
    ensures volume.Valid() && NoInsertSince(old(volume.history), volume.history)
    ensures volume.world == old(volume.world).(entries := volume.world.entries)
    ensures volume.world.Journal() == old(volume.world.Journal())
    ensures status in {ExecOk, ExecIoError, ExecTableCorrupt}
    ensures atOpen != TableOk ==>
              status == if atOpen in {TableCorrupt, TableIncompatible} then ExecTableCorrupt else ExecIoError
    ensures volume.reliable ==> tested
    ensures tested && status != ExecIoError ==> volume.world.Journal().None?
    ensures status == ExecOk ==> ReadHeader(volume.table.Now()).Good?
    ensures volume.index == old(volume.index)
            || (ReadHeader(volume.table.Now()).Good? && HoldsExact(volume.index, TableIds(volume)))
    ensures ReadHeader(volume.table.Now()).Good? && Distinct(IdsOf(TableRows(volume))) ==>
              && (volume.reliable ==> status != ExecTableCorrupt)
              && (status == ExecOk ==> output == Answer(TableRows(volume), q))
              && (volume.reliable && volume.world.Journal().None? ==> status == ExecOk)
  {
    hide ReadHeader, Distinct, IdsOf, Answer, Decoded, TrueSize, P.Runs;
    output := [];
    var st, table;
    st, table, tested := volume.OpenReadOnly();
    atOpen := st;
    if st == TableCorrupt || st == TableIncompatible { return ExecTableCorrupt, [], tested, atOpen; }
    if st != TableOk { return ExecIoError, [], tested, atOpen; }
    AcceptedHeader(volume.table.Now());
    var result;
    result, output := SelectWithIndex(volume, table, q);
    match result
    case SelectIndexError => return ExecTableCorrupt, output, tested, atOpen;
    case SelectIndexRowPrinted => return ExecOk, output, tested, atOpen;
    case SelectIndexNotUsed => status, output := SelectWithScan(table, q);
  }

  // ----- INSERT -----

  ghost predicate HasId(rows: seq<Slot>, id: int32) {
    !NewId(rows, id)
  }

  /** The row `execute_insert` builds: the name in a zeroed buffer, if it fits. */
  function NewRow(id: int32, name: string): (r: Option<Row>)
    ensures r.Some? ==> |r.value.name| == NAME_SIZE
  {
    var bytes := UpToNul(BytesOf(name));
    if |bytes| >= NAME_SIZE then None else Some(Row(id, bytes + Zeros(NAME_SIZE - |bytes|)))
  }

  /** The row that was asked for is what later reads see. */
  lemma NewRowReadsBack(id: int32, name: string)
    requires NewRow(id, name).Some?
    ensures NewRow(id, name).value.id == id
    ensures Deserialize(Serialize(NewRow(id, name).value)) == NewRow(id, name).value
    ensures UpToNul(NewRow(id, name).value.name) == UpToNul(BytesOf(name))
    ensures IdOf(Serialize(NewRow(id, name).value)) == id
  {
    hide Serialize, Deserialize, BytesOf;
    var bytes := UpToNul(BytesOf(name));
    hide UpToNul;
    DeserializeSerialize(NewRow(id, name).value);
    UpToNulOfPadded(bytes, NAME_SIZE - |bytes|);
  }

  /**
   The uniqueness check of `execute_insert`: the index first, and the scan whenever the
   index does not confirm the id. Without I/O errors it is exact for any index file.
   */
  method FindDuplicate(volume: Volume, table: Table, index: Index?, id: int32) returns (found: bool, failed: bool)
    requires table.Sized() && (index != null ==> index.Valid())
    ensures !failed ==> found == HasId(Rows(table.Image(), table.rowCount), id)
    ensures failed ==> !found && !table.volume.reliable
  {
    hide Index.Valid, TrueSize, TrueOffset, Decoded, Rows, IdOf, Deserialize;
    found, failed := false, false;
    ghost var m, n := table.Image(), table.rowCount;
    DecodedViews(m, n);
    assert forall k :: 0 <= k < n ==> Decoded(m, n)[k].id == IdOf(Rows(m, n)[k]) by { IdsAgree(m, n); }
    if index != null {
      var status, offset := index.Lookup(id);
      if status == IndexOk {
        var existing;
        status, existing := ValidateLookup(table, id, offset);
        if status == IndexOk { found := true; }
      }
    }
    if !found {
      var scanned, row, at := table.FindId(id);
      if scanned == ScanOk { found := true; }
      else if scanned != ScanEnd { failed := true; }
    }
  }

  lemma IdsAgree(m: seq<byte>, count: nat)
    ensures forall k :: 0 <= k < count ==> Decoded(m, count)[k].id == IdOf(Rows(m, count)[k])
  {
    hide Deserialize, Decoded, Rows;
    DecodedViews(m, count);
    forall k | 0 <= k < count ensures Decoded(m, count)[k].id == IdOf(Rows(m, count)[k]) {
      assert Decoded(m, count)[k] == Deserialize(Rows(m, count)[k]);
    }
  }

  // ----- whole runs of the engine -----

  /**
   The volume has run from a settled table with unique ids, every insert on a fresh handle
   and after a look for its id.
   */
  ghost predicate Running(volume: Volume, rows: seq<Slot>)
    reads volume
  {
    && volume.Valid()
    && P.Initial(volume.start, rows) && UniqueIds(rows)
    && FreshHandles(volume.start, volume.history)
    && ChecksIds(volume.start, volume.history)
  }

  /** Between statements the table is closed. */
  ghost predicate Sound(volume: Volume, rows: seq<Slot>)
    reads volume
  {
    Running(volume, rows) && volume.world.ctl.Closed? && volume.reported <= |volume.history|
  }

  /** The engine starts on a new table, with anything at all where the index file should be. */
  method Start(name: TableName, index: Option<seq<byte>>, reliable: bool) returns (volume: Volume)
    ensures fresh(volume) && Sound(volume, []) && volume.reliable == reliable && volume.index == index
    ensures volume.world == NewTable(name)
  {
    hide P.Runs, P.Initial, FreshHandles, ChecksIds, NewTable, IdOf, ReadHeader;
    NewTableIsInitial(name);
    QuietTail(NewTable(name), []);
    volume := new Volume(NewTable(name), index, reliable);
  }

  lemma {:induction false} QuietTail(w: P.World, es: seq<P.Event>)
    requires NoInserts(es)
    ensures FreshHandles(w, es) && ChecksIds(w, es)
    decreases |es|
  {
    hide P.Next, P.Enabled;
    if es != [] && P.Enabled(w, es[0]) {
      assert es[0] in es;
      QuietTail(P.Next(w, es[0]), es[1..]);
    }
  }

  lemma {:induction false} QuietAppends(w: P.World, es: seq<P.Event>, fs: seq<P.Event>)
    requires FreshHandles(w, es) && ChecksIds(w, es) && NoInserts(fs)
    ensures FreshHandles(w, es + fs) && ChecksIds(w, es + fs)
    decreases |es|
  {
    hide P.Next, P.Enabled, NewId, View;
    if es == [] {
      assert es + fs == fs;
      QuietTail(w, fs);
    } else {
      assert (es + fs)[1..] == es[1..] + fs;
      if P.Enabled(w, es[0]) { QuietAppends(P.Next(w, es[0]), es[1..], fs); }
    }
  }

  lemma GoesOn(start: P.World, before: seq<P.Event>, after: seq<P.Event>)
    requires FreshHandles(start, before) && ChecksIds(start, before) && NoInsertSince(before, after)
    ensures FreshHandles(start, after) && ChecksIds(start, after)
  {
    hide FreshHandles, ChecksIds;
    assert after == before + after[|before|..];
    QuietAppends(start, before, after[|before|..]);
  }

  /** An insert begun on a fresh handle with a new id keeps the run in order. */
  lemma {:induction false} BeginAppends(w: P.World, es: seq<P.Event>, m: P.World, slot: Slot)
    requires P.Runs(w, es, m) && FreshHandles(w, es) && ChecksIds(w, es)
    requires Fresh(m) && NewId(View(m), IdOf(slot))
    ensures FreshHandles(w, es + [P.BeginInsert(slot)]) && ChecksIds(w, es + [P.BeginInsert(slot)])
    decreases |es|
  {
    hide P.Next, P.Enabled, NewId, View, ReadHeader;
    var b := [P.BeginInsert(slot)];
    assert b[1..] == [];
    if es == [] {
      assert es + b == b;
    } else {
      assert (es + b)[1..] == es[1..] + b;
      BeginAppends(P.Next(w, es[0]), es[1..], m, slot);
    }
  }

  lemma {:induction false} CutShort(w: P.World, es: seq<P.Event>, k: nat)
    requires FreshHandles(w, es) && ChecksIds(w, es) && k <= |es|
    ensures FreshHandles(w, es[..k]) && ChecksIds(w, es[..k])
    decreases |es|
  {
    hide P.Next, P.Enabled, NewId, View, ReadHeader;
    if k > 0 {
      assert es[..k][1..] == es[1..][..k - 1];
      if P.Enabled(w, es[0]) { CutShort(P.Next(w, es[0]), es[1..], k - 1); }
    }
  }

  /**
   Losing power at any moment `k` of the statement under way, and with it any part of the
   index file, leaves the engine sound. What earlier statements did cannot be undone: the
   moment is not before `since`, the latest the user has been told about, and everything
   acknowledged by then still is. If an INSERT was cut off, what the table shows is the rows
   it found, these and the new one, or all but one last row never acknowledged.
   */
  method Crash(volume: Volume, ghost rows: seq<Slot>, ghost since: nat, ghost told: P.World,
               ghost k: nat, ghost moment: P.World, survivor: seq<byte>, ghost entry: nat, kept: bool,
               journal: seq<byte>, index: Option<seq<byte>>)
    requires Running(volume, rows) && volume.reported <= since <= k <= |volume.history|
    requires P.Runs(volume.start, volume.history[..since], told)
    requires P.Runs(volume.start, volume.history[..k], moment)
    requires P.Enabled(moment, P.Crash(survivor, entry, journal)) && kept == moment.entries[entry].Some?
    modifies volume
    ensures Sound(volume, rows) && volume.world.acked == moment.acked && volume.reliable == old(volume.reliable)
    ensures volume.history == old(volume.history)[..k] + [P.Crash(survivor, entry, journal)]
    ensures forall n :: n in told.acked ==> n in volume.world.acked && volume.world.acked[n] == told.acked[n]
    ensures LastInsertShows(volume.start, volume.history, ReadOnlyView(volume.world))
  {
    hide P.Runs, FreshHandles, ChecksIds, P.Initial, CrashImage, LastInsertShows, ReadOnlyView;
    ghost var before := volume.history[..k];
    CutShort(volume.start, volume.history, k);
    StillAcknowledged(volume.start, rows, volume.history, since, told, k, moment);
    volume.PowerLoss(k, moment, survivor, entry, kept, journal, index);
    GoesOn(volume.start, before, volume.history);
    LastInsertOf(volume.start, rows, volume.history, volume.world);
    volume.reported := |volume.history|;
  }

  /** The rows that were acknowledged, or there from the start, as the executor sees them. */
  ghost predicate Includes(rows: seq<Row>, acked: map<nat, Slot>) {
    forall k :: k in acked ==> k < |rows| && rows[k] == Deserialize(acked[k])
  }

  lemma SoundRows(volume: Volume, rows: seq<Slot>)
    requires Running(volume, rows) && volume.world.Journal().None? && ReadHeader(volume.table.Now()).Good?
    ensures Distinct(IdsOf(TableRows(volume))) && Includes(TableRows(volume), volume.world.acked)
  {
    hide P.Runs, FreshHandles, ChecksIds, P.Initial, P.Careful, IdOf, Deserialize, ReadHeader, Rows;
    var w := volume.world;
    FreshHandlesAreCareful(volume.start, volume.history);
    IdsStayUnique(volume.start, rows, volume.history, w);
    AcknowledgedRowsStay(volume.start, rows, volume.history, w);
    var count := ReadHeader(w.table.Now()).count;
    DecodedViews(w.table.Now(), count);
    ViewIds(w, count);
  }

  lemma ViewIds(w: P.World, count: uint64)
    requires UniqueIds(Rows(w.table.Now(), count))
    ensures Distinct(IdsOf(Decoded(w.table.Now(), count)))
  {
    hide Deserialize, Rows, Decoded;
    var m := w.table.Now();
    DecodedViews(m, count);
    forall i, j | 0 <= i < j < count ensures IdsOf(Decoded(m, count))[i] != IdsOf(Decoded(m, count))[j] {
      assert IdOf(Rows(m, count)[i]) != IdOf(Rows(m, count)[j]);
    }
  }

  lemma SoundHeader(volume: Volume, rows: seq<Slot>)
    requires Running(volume, rows) && volume.world.Journal().None?
    ensures ReadHeader(volume.table.Now()).Good?
  {
    hide P.Runs, FreshHandles, P.Initial, P.Careful, ReadHeader;
    FreshHandlesAreCareful(volume.start, volume.history);
    NothingLooksCorrupt(volume.start, rows, volume.history, volume.world);
  }

  /** `index_insert` and `index_persist` after the row is committed; the table is not touched. */
  method UpdateIndex(volume: Volume, index: Index, id: int32, offset: uint64) returns (status: ExecStatus)
    requires volume.Valid() && offset <= LONG_MAX && index.Valid()
    modifies volume`index, volume`entries, volume`world, volume`history
    modifies index, index.buckets, index.nodes
    ensures volume.Valid() && NoInsertSince(old(volume.history), volume.history)
    ensures volume.world == old(volume.world).(entries := volume.world.entries)
    ensures volume.world.Journal() == old(volume.world.Journal())
    ensures status in {ExecOk, ExecIndexError, ExecIndexPersistFailed}
    ensures status != ExecIndexError ==>
              && index.M == old(index.M)[id := offset]
              && index.entryCount == if id in old(index.M) then old(index.entryCount) else old(index.entryCount) + 1
    ensures volume.index == old(volume.index)
            || (status != ExecIndexError && FileHolds(volume.index, index.M, index.entryCount))
    ensures status == ExecOk ==> FileHolds(volume.index, index.M, index.entryCount)
    ensures volume.reliable && index.ample && old(index.entryCount) + 1 < U32
            && CanAdd(old(index.entryCount), old(index.buckets.Length)) ==>
              status == ExecOk
  {
    hide Index.Valid, P.Runs, LoadIndex, FileHolds;
    var st := index.Insert(id, offset, false);
    if st == IndexDuplicateKey { st := index.Insert(id, offset, true); }
    if st != IndexOk { return ExecIndexError; }
    st := Persist(index, volume);
    return if st == IndexOk then ExecOk else ExecIndexPersistFailed;
  }

  /** A handle that counts what the header counts has the rows a read-only open would show. */
  lemma CountedView(volume: Volume, table: Table)
    requires volume.Valid() && volume.Counts(table, true)
    ensures ReadOnlyView(volume.world) == Some(Rows(table.Image(), table.rowCount))
  {
    hide P.Runs, ReadHeader, Rows;
  }

  /** The uniqueness check: go ahead (ExecOk), or stop with a reason. */
  method CheckNew(volume: Volume, table: Table, ghost rows: seq<Slot>, id: int32)
    returns (status: ExecStatus, index: Index?)
    requires Running(volume, rows) && volume.Counts(table, true)
    modifies volume`index, volume`entries, volume`world, volume`history
    ensures Running(volume, rows) && volume.Counts(table, true) && NoInsertSince(old(volume.history), volume.history)
    ensures volume.world == old(volume.world).(entries := volume.world.entries)
    ensures volume.world.Journal() == old(volume.world.Journal())
    ensures ReadOnlyView(volume.world) == Some(Rows(table.Image(), table.rowCount))
    ensures index != null ==> fresh(index) && fresh(index.buckets) && fresh(index.nodes) && index.Valid()
    ensures status in {ExecOk, ExecDuplicateId, ExecIoError, ExecTableCorrupt}
    ensures volume.reliable ==> status != ExecIoError
    ensures status == ExecOk ==> NewId(Rows(table.Image(), table.rowCount), id)
    ensures status == ExecDuplicateId ==> HasId(Rows(table.Image(), table.rowCount), id)
    ensures status == ExecTableCorrupt ==> !Distinct(IdsOf(Decoded(table.Image(), table.rowCount)))
    ensures Undisturbed(volume) && status == ExecOk ==>
              && index != null && index.ample && Fitting(index, table.rowCount)
              && (ExactOrRefused(old(volume.index), TableIds(volume)) ==> ExactIndex(TableIds(volume), index.M))
  {
    hide P.Runs, FreshHandles, ChecksIds, P.Initial, ReadHeader, LoadIndex, ExactIndex, Distinct, IdsOf, Index.Valid,
      Decoded, Rows, NewId, Serialize, TrueOffset, TrueSize, UniqueIds, NewRow, IdOf, Volume.Valid;
    AcceptedHeader(volume.table.Now());
    assert table.Sized();
    CountedView(volume, table);
    ghost var h0 := volume.history;
    var found;
    found, index := LoadOrRebuild(volume);
    GoesOn(volume.start, h0, volume.history);
    if found == IndexDuplicatePrimaryKey { return ExecTableCorrupt, null; }
    SoundRows(volume, rows);
    assert ReadHeader(volume.table.Now()).count == table.rowCount;
    var duplicate, failed := FindDuplicate(volume, table, index, id);
    status := if failed then ExecIoError else if duplicate then ExecDuplicateId else ExecOk;
  }

  /** What a table shows after an insert that was not acknowledged. */
  ghost predicate AfterFailure(before: seq<Slot>, slot: Option<Slot>, acked: map<nat, Slot>, view: seq<Slot>) {
    || view == before
    || (slot.Some? && view == before + [slot.value])
    || (|before| > 0 && |before| - 1 !in acked && view == before[..|before| - 1])
  }

  /** So it is after every insert, if it was begun at all. */
  lemma AfterCommit(start: P.World, rows: seq<Slot>, h: seq<P.Event>, w: P.World, slot: Slot, h': seq<P.Event>,
                    w': P.World)
    requires P.Initial(start, rows) && P.Runs(start, h, w) && FreshHandles(start, h) && Fresh(w)
    requires h' == h || NoInsertSince(h + [P.BeginInsert(slot)], h')
    requires P.Runs(start, h', w')
    ensures ReadOnlyView(w').Some? ==> AfterFailure(View(w), Some(slot), w.acked, ReadOnlyView(w').value)
    ensures ReadOnlyView(w').Some? && w'.ctl.Open? && w'.ctl.count == w.ctl.count + 1 && w.ctl.count in w'.acked ==>
              ReadOnlyView(w').value == View(w) + [slot]
    ensures OneInsertSince(h, h', slot)
  {
    hide P.Initial, P.Runs, FreshHandles, ReadHeader, Rows;
    if h' == h {
      SameWorld(start, h, w, w');
    } else {
      AfterInsert(start, rows, h, w, slot, h', w');
      assert NoInsertSince(h, h);
    }
  }

  lemma HeaderShows(w: P.World)
    requires w.Journal().None? && ReadHeader(w.table.Now()).Good?
    ensures ReadOnlyView(w).Some?
  {
    hide ReadHeader, Rows;
  }

  /** `storage_insert_row` for a row whose id is new. */
  method CommitRow(volume: Volume, table: Table, ghost rows: seq<Slot>, row: Row)
    returns (status: TableStatus, offset: uint64)
    requires Running(volume, rows) && volume.Counts(table, true) && volume.world.ctl == P.Open(table.rowCount)
    requires |row.name| == NAME_SIZE && NewId(Rows(table.Image(), table.rowCount), IdOf(Serialize(row)))
    modifies volume`table, volume`temp, volume`entries, volume`world, volume`history, table`rowCount
    ensures Running(volume, rows) && volume.world.ctl == P.Open(table.rowCount)
    ensures OneInsertSince(old(volume.history), volume.history, Serialize(row))
    ensures status == TableOk ==>
              && volume.world.acked == old(volume.world.acked)[old(table.rowCount) := Serialize(row)]
              && offset <= LONG_MAX && offset == TrueOffset(old(table.rowCount))
              && ReadOnlyView(volume.world) == Some(Rows(old(table.Image()), old(table.rowCount)) + [Serialize(row)])
    ensures status != TableOk ==>
              && volume.world.acked == old(volume.world.acked)
              && (ReadOnlyView(volume.world).Some? ==>
                    AfterFailure(Rows(old(table.Image()), old(table.rowCount)), Some(Serialize(row)),
                                 old(volume.world.acked), ReadOnlyView(volume.world).value))
    ensures volume.reliable && HasRoom(old(table.rowCount)) ==> status == TableOk
  {
    hide P.Runs, FreshHandles, ChecksIds, P.Initial, ReadHeader, LoadIndex, ExactIndex, Distinct, IdsOf, Index.Valid,
      Decoded, Rows, NewId, Serialize, TrueOffset, TrueSize, UniqueIds, NewRow, IdOf, ReadOnlyView, AfterFailure;
    ghost var h0, w0 := volume.history, volume.world;
    ghost var slot := Serialize(row);
    CountedView(volume, table);
    BeginAppends(volume.start, h0, w0, slot);
    status, offset := table.InsertRow(row);
    if volume.history != h0 { GoesOn(volume.start, h0 + [P.BeginInsert(slot)], volume.history); }
    AfterCommit(volume.start, rows, h0, w0, slot, volume.history, volume.world);
    if volume.world.Journal().None? {
      SoundHeader(volume, rows);
      HeaderShows(volume.world);
    }
  }

  /** The row is in the table for good, whatever became of the index. */
  predicate Committed(status: ExecStatus) {
    status == ExecOk || status == ExecIndexError || status == ExecIndexPersistFailed
  }

  /** The slot an INSERT of these values would fill. */
  function NewSlot(id: int32, name: string): Option<Slot> {
    match NewRow(id, name)
    case None => None
    case Some(row) => Some(Serialize(row))
  }

  /**
   What each status says: about the rows `before` the insert, about what is acknowledged, and
   about what the table shows afterwards.
   */
  ghost predicate Explained(status: ExecStatus, before: seq<Slot>, id: int32, name: string,
                            acked: map<nat, Slot>, acked': map<nat, Slot>, view: Option<seq<Slot>>)
  {
    && status != ExecTableCorrupt
    && (Committed(status) ==>
          && NewSlot(id, name).Some? && NewId(before, id)
          && acked' == acked[|before| := NewSlot(id, name).value]
          && view == Some(before + [NewSlot(id, name).value]))
    && (!Committed(status) ==> acked' == acked)
    && (status == ExecDuplicateId ==> HasId(before, id) && view == Some(before))
    && (status == ExecSemanticError ==> NewId(before, id) && NewSlot(id, name).None? && view == Some(before))
    && (!Committed(status) && view.Some? ==> AfterFailure(before, NewSlot(id, name), acked, view.value))
  }

  /** The history goes on with at most one insert, and that of the statement's own row. */
  ghost predicate InsertsOnly(h0: seq<P.Event>, h: seq<P.Event>, slot: Option<Slot>) {
    match slot
    case None => NoInsertSince(h0, h)
    case Some(s) => h0 <= h && OneInsertSince(h0, h, s)
  }

  /** `execute_insert` from the row it has built to the close. */
  method InsertNew(volume: Volume, table: Table, ghost rows: seq<Slot>, index: Index?, row: Row)
    returns (status: ExecStatus, ghost written: TableStatus)
    requires Running(volume, rows) && volume.Counts(table, true) && volume.world.ctl == P.Open(table.rowCount)
    requires |row.name| == NAME_SIZE && IdOf(Serialize(row)) == row.id
    requires NewId(Rows(table.Image(), table.rowCount), row.id) && (index != null ==> index.Valid())
    modifies volume`table, volume`temp, volume`entries, volume`index, volume`world, volume`history, table`rowCount
    modifies set x: object | index != null && (x == index || x == index.buckets || x in index.nodes)
    ensures Running(volume, rows) && volume.world.ctl == P.Open(table.rowCount)
    ensures OneInsertSince(old(volume.history), volume.history, Serialize(row))
    ensures Committed(status) || status == ExecReadOnly || status == ExecIoError
    ensures Committed(status) <==> written == TableOk
    ensures status == ExecReadOnly <==> written == TableReadOnly
    ensures Committed(status) ==>
              && volume.world.acked == old(volume.world.acked)[old(table.rowCount) := Serialize(row)]
              && ReadOnlyView(volume.world) == Some(Rows(old(table.Image()), old(table.rowCount)) + [Serialize(row)])
    ensures !Committed(status) ==>
              && volume.world.acked == old(volume.world.acked)
              && (ReadOnlyView(volume.world).Some? ==>
                    AfterFailure(Rows(old(table.Image()), old(table.rowCount)), Some(Serialize(row)),
                                 old(volume.world.acked), ReadOnlyView(volume.world).value))
    ensures volume.reliable && HasRoom(old(table.rowCount)) ==> Committed(status)
    ensures volume.reliable && HasRoom(old(table.rowCount)) && old(table.rowCount) + 1 < U32
            && index != null && index.ample && old(Fitting(index, table.rowCount)) ==>
              && status == ExecOk
              && var before := Rows(old(table.Image()), old(table.rowCount));
                 ExactIndex(SlotIds(before), old(index.M)) ==>
                   HoldsExact(volume.index, SlotIds(before + [Serialize(row)]))
  {
    hide P.Runs, FreshHandles, ChecksIds, P.Initial, ReadHeader, LoadIndex, ExactIndex, Distinct, IdsOf, Index.Valid,
      Decoded, Rows, NewId, Serialize, TrueOffset, TrueSize, UniqueIds, IdOf, OneInsertSince, ReadOnlyView, Running,
      AfterFailure, HasRoom, HoldsExact;
    ghost var h0, before := volume.history, Rows(table.Image(), table.rowCount);
    var inserted, offset := CommitRow(volume, table, rows, row);
    ghost var h1 := volume.history;
    written := inserted;
    if inserted != TableOk { return if inserted == TableReadOnly then ExecReadOnly else ExecIoError, inserted; }
    status := KeepIndex(volume, rows, before + [Serialize(row)], index, row.id, offset);
    ShownIds(volume, rows, before + [Serialize(row)]);
    OlderIds(before, Serialize(row));
    NoInsertSelf(h0);
    OneInsertMore(h0, h0, h1, volume.history, Serialize(row));
  }

  /** The ids a rebuild would find are those of the rows that are shown. */
  lemma ShownIds(volume: Volume, rows: seq<Slot>, shown: seq<Slot>)
    requires Running(volume, rows) && ReadOnlyView(volume.world) == Some(shown)
    ensures ReadHeader(volume.table.Now()).Good? && TableIds(volume) == SlotIds(shown)
  {
    hide P.Runs, FreshHandles, ChecksIds, P.Initial, UniqueIds, ReadHeader, IdOf, Rows, Decoded;
    IdsAgree(volume.table.Now(), |shown|);
  }

  lemma OlderIds(slots: seq<Slot>, slot: Slot)
    ensures SlotIds(slots + [slot])[..|slots + [slot]| - 1] == SlotIds(slots)
  {
    hide IdOf;
  }

  /** `execute_insert` between the writable open and the close. */
  method InsertChecked(volume: Volume, table: Table, ghost rows: seq<Slot>, id: int32, name: string)
    returns (status: ExecStatus)
    requires Running(volume, rows) && volume.Counts(table, true) && volume.world.ctl == P.Open(table.rowCount)
    modifies volume`table, volume`temp, volume`entries, volume`index, volume`world, volume`history, table`rowCount
    ensures Running(volume, rows) && volume.world.ctl == P.Open(table.rowCount)
    ensures Explained(status, Rows(old(table.Image()), old(table.rowCount)), id, name,
                      old(volume.world.acked), volume.world.acked, ReadOnlyView(volume.world))
    ensures InsertsOnly(old(volume.history), volume.history, NewSlot(id, name))
    ensures status == ExecDuplicateId ==> volume.table == old(volume.table)
    ensures volume.reliable && HasRoom(old(table.rowCount)) ==>
              Exact(status, Rows(old(table.Image()), old(table.rowCount)), id, name)
    ensures volume.reliable && HasRoom(old(table.rowCount)) && old(table.rowCount) + 1 < U32 ==>
              Indexed(status, Rows(old(table.Image()), old(table.rowCount)), NewSlot(id, name),
                      old(volume.index), volume.index)
  {
    hide P.Runs, FreshHandles, ChecksIds, P.Initial, ReadHeader, LoadIndex, ExactIndex, Distinct, IdsOf, Index.Valid,
      Decoded, Rows, NewId, Serialize, TrueOffset, TrueSize, UniqueIds, NewRow, IdOf, OneInsertSince,
      ReadOnlyView, Running, HasRoom, Explained, Exact, AfterFailure, ExactOrRefused, HoldsExact;
    ghost var h0, slot := volume.history, NewSlot(id, name);
    ghost var before, acked := Rows(table.Image(), table.rowCount), volume.world.acked;
    SoundRows(volume, rows);
    var index;
    status, index := CheckNew(volume, table, rows, id);
    ghost var h1 := volume.history;
    NoneIsOne(h0, h1, slot);
    if status != ExecOk {
      ExplainStop(status, before, id, name, acked);
      return;
    }
    ShownIds(volume, rows, before);
    var row := NewRow(id, name);
    if row.None? {
      ExplainStop(ExecSemanticError, before, id, name, acked);
      return ExecSemanticError;
    }
    NewRowReadsBack(id, name);
    ghost var written;
    status, written := InsertNew(volume, table, rows, index, row.value);
    ExplainTry(status, before, id, name, acked, volume.world.acked, ReadOnlyView(volume.world));
    NoInsertSelf(volume.history);
    OneInsertMore(h0, h1, volume.history, volume.history, slot.value);
  }

  lemma ExplainStop(status: ExecStatus, before: seq<Slot>, id: int32, name: string, acked: map<nat, Slot>)
    requires status in {ExecDuplicateId, ExecIoError, ExecSemanticError}
    requires status == ExecDuplicateId ==> HasId(before, id)
    requires status == ExecSemanticError ==> NewId(before, id) && NewSlot(id, name).None?
    ensures Explained(status, before, id, name, acked, acked, Some(before))
    ensures status != ExecIoError ==> Exact(status, before, id, name)
  {
    hide NewId, NewSlot, NameFits;
    NewSlotExact(id, name);
  }

  lemma ExplainTry(status: ExecStatus, before: seq<Slot>, id: int32, name: string,
                   acked: map<nat, Slot>, acked': map<nat, Slot>, view: Option<seq<Slot>>)
    requires NewId(before, id) && NewSlot(id, name).Some?
    requires Committed(status) || status == ExecReadOnly || status == ExecIoError
    requires if Committed(status) then
               && acked' == acked[|before| := NewSlot(id, name).value]
               && view == Some(before + [NewSlot(id, name).value])
             else acked' == acked && (view.Some? ==> AfterFailure(before, NewSlot(id, name), acked, view.value))
    ensures Explained(status, before, id, name, acked, acked', view)
    ensures Committed(status) && (|before| + 1 < U32 ==> status == ExecOk) ==> Exact(status, before, id, name)
  {
    hide NewId, NewSlot, NameFits, AfterFailure;
    NewSlotExact(id, name);
  }

  lemma NoInsertSelf(h: seq<P.Event>)
    ensures NoInsertSince(h, h)
  {
  }

  lemma NoneIsOne(h0: seq<P.Event>, h: seq<P.Event>, slot: Option<Slot>)
    requires NoInsertSince(h0, h)
    ensures InsertsOnly(h0, h, slot)
  {
  }

  lemma InsertsAround(a: seq<P.Event>, b: seq<P.Event>, c: seq<P.Event>, d: seq<P.Event>, slot: Option<Slot>)
    requires NoInsertSince(a, b) && InsertsOnly(b, c, slot) && NoInsertSince(c, d)
    ensures InsertsOnly(a, d, slot) && a <= b <= c <= d
  {
    match slot
    case None =>
      NoInsertTwice(a, b, c);
      NoInsertTwice(a, c, d);
    case Some(s) =>
      Prefixes(a, b, c, d, s);
      OneInsertMore(a, b, c, d, s);
  }

  /**
   After the commit: without a loaded index a new one is started for this row alone. What is
   then on file is the old file, or the next load refuses it, or it is the exact index; and
   so it is with a loaded index that was exact for the rows before.
   */
  method KeepIndex(volume: Volume, ghost rows: seq<Slot>, ghost shown: seq<Slot>, index: Index?, id: int32,
                   offset: uint64)
    returns (status: ExecStatus)
    requires Running(volume, rows) && offset <= LONG_MAX && (index != null ==> index.Valid())
    requires ReadOnlyView(volume.world) == Some(shown) && shown != []
    requires IdOf(shown[|shown| - 1]) == id && offset == TrueOffset(|shown| - 1)
    modifies volume`index, volume`entries, volume`world, volume`history
    modifies set x: object | index != null && (x == index || x == index.buckets || x in index.nodes)
    ensures Running(volume, rows) && NoInsertSince(old(volume.history), volume.history)
    ensures volume.world == old(volume.world).(entries := volume.world.entries)
    ensures ReadOnlyView(volume.world) == Some(shown)
    ensures Committed(status)
    ensures ReadHeader(volume.table.Now()).Good? && |TableIds(volume)| == |shown|
    ensures index == null ==>
              volume.index == old(volume.index) || ExactOrRefused(volume.index, TableIds(volume))
    ensures index != null && ExactIndex(TableIds(volume)[..|shown| - 1], old(index.M)) ==>
              volume.index == old(volume.index) || ExactOrRefused(volume.index, TableIds(volume))
    ensures volume.reliable && |shown| < U32 && index != null && index.ample && old(Fitting(index, |shown| - 1)) ==>
              && status == ExecOk
              && (ExactIndex(TableIds(volume)[..|shown| - 1], old(index.M)) ==>
                    HoldsExact(volume.index, TableIds(volume)))
  {
    hide P.Runs, FreshHandles, ChecksIds, P.Initial, ReadHeader, LoadIndex, ExactIndex, Distinct, IdsOf, Index.Valid,
      Decoded, Rows, NewId, Serialize, TrueOffset, TrueSize, UniqueIds, NewRow, IdOf, FileHolds, ExactOrRefused;
    ghost var h0 := volume.history;
    ghost var ids := NewestId(volume, rows, shown);
    if index == null {
      var created := CreateSized(0, volume.reliable);
      if created == null { return ExecIndexPersistFailed; }
      status := UpdateIndex(volume, created, id, offset);
      if FileHolds(volume.index, map[id := offset], 1) { OneEntryIsExactOrRefused(volume.index, ids, offset); }
    } else {
      ghost var m := index.M;
      if ExactIndex(ids[..|shown| - 1], m) { NewestAbsent(ids, m); }
      status := UpdateIndex(volume, index, id, offset);
      if ExactIndex(ids[..|shown| - 1], m) && FileHolds(volume.index, m[id := offset], index.entryCount) {
        GrownIsExactOrRefused(volume.index, ids, m, offset, index.entryCount);
        GrownIsHeld(volume.index, ids, m, offset, index.entryCount);
      }
    }
    GoesOn(volume.start, h0, volume.history);
  }

  /** The ids a rebuild would find are those of the rows that are shown. */
  lemma NewestId(volume: Volume, rows: seq<Slot>, shown: seq<Slot>) returns (ids: seq<int32>)
    requires Running(volume, rows) && ReadOnlyView(volume.world) == Some(shown) && shown != []
    ensures ReadHeader(volume.table.Now()).Good? && ids == TableIds(volume) && |ids| == |shown| <= U64_MAX
    ensures Distinct(ids) && ids[|ids| - 1] == IdOf(shown[|shown| - 1])
  {
    hide P.Runs, FreshHandles, ChecksIds, P.Initial, ReadHeader, IdOf, Rows, Decoded, Distinct, UniqueIds;
    ids := TableIds(volume);
    SoundRows(volume, rows);
    IdsAgree(volume.table.Now(), |shown|);
  }

  /** A writable open that calls the table corrupt found an unacceptable journal or header. */
  ghost predicate OpenBlames(before: P.World, after: P.World) {
    || (before.Journal().Some? && Decode(before.Journal().value.Now(), before.name).None?)
    || (after.Journal().None? && ReadHeader(after.table.Now()).Bad?)
  }

  /**
   These are the rows the statement's writable open found: those of a handle fresh from an
   open, at a moment after the statement began and before it inserted anything. They include
   what had been acknowledged, and are what the table showed before, if it could be read.
   */
  ghost predicate FoundRows(start: P.World, h0: seq<P.Event>, w0: P.World, h: seq<P.Event>, before: seq<Slot>) {
    && (exists k: nat, m: P.World ::
          |h0| <= k <= |h| && NoInsertSince(h0, h[..k]) && P.Runs(start, h[..k], m) && Fresh(m) && View(m) == before)
    && (forall n :: n in w0.acked ==> n < |before| && before[n] == w0.acked[n])
    && (w0.Journal().None? ==> ReadOnlyView(w0) == Some(before))
  }

  /**
   All that an INSERT does, from the world, history and index file it starts with to those it
   ends with.
   Without `before` its writable open failed, and nothing was inserted.
   */
  ghost predicate Outcome(status: ExecStatus, before: Option<seq<Slot>>, id: int32, name: string, start: P.World,
                          h0: seq<P.Event>, w0: P.World, h: seq<P.Event>, w: P.World, reliable: bool,
                          file0: Option<seq<byte>>, file: Option<seq<byte>>)
  {
    match before
    case None =>
      && status in {ExecIoError, ExecReadOnly, ExecTableCorrupt} && !reliable
      && NoInsertSince(h0, h) && w.acked == w0.acked
    case Some(rows) =>
      && FoundRows(start, h0, w0, h, rows)
      && Explained(status, rows, id, name, w0.acked, w.acked, ReadOnlyView(w))
      && InsertsOnly(h0, h, NewSlot(id, name))
      && (status == ExecDuplicateId && w0.Journal().None? ==> w.table == w0.table)
      && (reliable && HasRoom(|rows|) ==>
            && Exact(status, rows, id, name)
            && (|rows| + 1 < U32 ==> Indexed(status, rows, NewSlot(id, name), file0, file)))
  }

  /** The name has at most 31 characters, counted up to its NUL if it has one. */
  ghost predicate NameFits(name: string) {
    exists n: nat :: n <= 31 && EndsAt(name, n)
  }

  ghost predicate EndsAt(name: string, n: nat) {
    n <= |name| && (n == |name| || name[n] == '\0')
  }

  /** Exactly such names make a row. */
  lemma NewSlotExact(id: int32, name: string)
    ensures NewSlot(id, name).Some? <==> NameFits(name)
  {
    hide BytesOf, Serialize;
    var bytes := BytesOf(name);
    var r := UpToNul(bytes);
    assert EndsAt(name, |r|) by {
      assert |r| < |name| ==> bytes[|r|] == 0;
    }
    forall n: nat | EndsAt(name, n) ensures |r| <= n {
      assert n < |name| ==> bytes[n] == 0;
    }
  }

  /** Which status an INSERT has when no call fails and there is room for the row. */
  ghost predicate Exact(status: ExecStatus, before: seq<Slot>, id: int32, name: string) {
    && (status == ExecDuplicateId <==> HasId(before, id))
    && (status == ExecSemanticError <==> NewId(before, id) && !NameFits(name))
    && (Committed(status) <==> NewId(before, id) && NameFits(name))
    && (|before| + 1 < U32 ==> (status == ExecOk <==> NewId(before, id) && NameFits(name)))
  }

  /** And what it leaves in the index file, unless the file had a wrong index that looked right. */
  ghost predicate Indexed(status: ExecStatus, before: seq<Slot>, slot: Option<Slot>,
                          file0: Option<seq<byte>>, file: Option<seq<byte>>)
  {
    status == ExecOk && slot.Some? && ExactOrRefused(file0, SlotIds(before)) ==>
      HoldsExact(file, SlotIds(before + [slot.value]))
  }

  lemma OpenNeverBlames(start: P.World, rows: seq<Slot>, h: seq<P.Event>, before: P.World, h': seq<P.Event>,
                        after: P.World)
    requires P.Initial(start, rows)
    requires P.Runs(start, h, before) && FreshHandles(start, h)
    requires P.Runs(start, h', after) && FreshHandles(start, h')
    ensures !OpenBlames(before, after)
  {
    hide P.Runs, FreshHandles, P.Initial, P.Careful, ReadHeader, Decode;
    FreshHandlesAreCareful(start, h);
    FreshHandlesAreCareful(start, h');
    NothingLooksCorrupt(start, rows, h, before);
    NothingLooksCorrupt(start, rows, h', after);
  }

  lemma BlameIs(before: P.World, after: P.World)
    ensures OpenBlames(before, after) <==>
            || (before.Journal().Some? && Decode(before.Journal().value.Now(), before.name).None?)
            || (after.Journal().None? && ReadHeader(after.table.Now()).Bad?)
  {
  }

  /** The open has just been made. */
  lemma OpenFinds(volume: Volume, rows: seq<Slot>, h0: seq<P.Event>, w0: P.World, before: seq<Slot>)
    requires Running(volume, rows) && Fresh(volume.world) && before == View(volume.world)
    requires NoInsertSince(h0, volume.history) && volume.world.acked == w0.acked
    requires w0.Journal().None? ==> w0.table == volume.table
    ensures FoundRows(volume.start, h0, w0, volume.history, before)
  {
    hide P.Runs, FreshHandles, ChecksIds, P.Initial, P.Careful, ReadHeader, Rows, UniqueIds, NoInsertSince;
    var h, w := volume.history, volume.world;
    assert h[..|h|] == h;
    assert h0 <= h by { HistoryGrows(h0, h); }
    FreshHandlesAreCareful(volume.start, h);
    AcknowledgedRowsStay(volume.start, rows, h, w);
  }

  lemma HistoryGrows(h0: seq<P.Event>, h: seq<P.Event>)
    requires NoInsertSince(h0, h)
    ensures h0 <= h
  {
  }

  lemma FoundLater(start: P.World, h0: seq<P.Event>, w0: P.World, h1: seq<P.Event>, h: seq<P.Event>, before: seq<Slot>)
    requires FoundRows(start, h0, w0, h1, before) && h1 <= h
    ensures FoundRows(start, h0, w0, h, before)
  {
    hide P.Runs, ReadHeader, Rows, ReadOnlyView, NoInsertSince;
    var k: nat, m: P.World :| |h0| <= k <= |h1| && NoInsertSince(h0, h1[..k]) && P.Runs(start, h1[..k], m)
                              && Fresh(m) && View(m) == before;
    assert h[..k] == h1[..k];
  }

  /** `execute_insert` on a sound engine; `before` is what its writable open, recovery included, found. */
  method ExecuteInsert(volume: Volume, ghost rows: seq<Slot>, id: int32, name: string)
    returns (status: ExecStatus, ghost before: Option<seq<Slot>>, ghost atOpen: TableStatus)
    requires Sound(volume, rows)
    modifies volume`table, volume`temp, volume`entries, volume`index, volume`world, volume`history
    ensures Sound(volume, rows) && old(volume.history) <= volume.history
    ensures before.Some? <==> atOpen == TableOk
    ensures atOpen != TableOk ==>
              status == if atOpen in {TableCorrupt, TableIncompatible} then ExecTableCorrupt
                        else if atOpen == TableReadOnly then ExecReadOnly else ExecIoError
    ensures Outcome(status, before, id, name, volume.start, old(volume.history), old(volume.world),
                    volume.history, volume.world, volume.reliable, old(volume.index), volume.index)
  {
    hide P.Runs, FreshHandles, ChecksIds, P.Initial, ReadHeader, LoadIndex, ExactIndex, Distinct, IdsOf, Index.Valid,
      Decoded, Rows, NewId, Serialize, TrueOffset, TrueSize, UniqueIds, NewRow, IdOf, Decode, Explained, Exact,
      FoundRows, InsertsOnly, OpenBlames, HasRoom, NewSlot;
    ghost var h0, w0 := volume.history, volume.world;
    var st, table := volume.OpenWritable();
    ghost var h1, w1 := volume.history, volume.world;
    GoesOn(volume.start, h0, h1);
    before, atOpen := None, st;
    OpenNeverBlames(volume.start, rows, h0, w0, h1, w1);
    BlameIs(w0, w1);
    if st == TableCorrupt || st == TableIncompatible { return ExecTableCorrupt, before, atOpen; }
    if st == TableReadOnly { return ExecReadOnly, before, atOpen; }
    if st != TableOk { return ExecIoError, before, atOpen; }
    before := Some(Rows(table.Image(), table.rowCount));
    OpenFinds(volume, rows, h0, w0, before.value);
    status := InsertChecked(volume, table, rows, id, name);
    ghost var h2, w2 := volume.history, volume.world;
    table.Close();
    GoesOn(volume.start, h2, volume.history);
    InsertsAround(h0, h1, h2, volume.history, NewSlot(id, name));
    FoundLater(volume.start, h0, w0, h1, volume.history, before.value);
  }

  // ----- statements -----

  /**
   What a SELECT that succeeds has told its user: the answer from the table's rows, which
   have distinct ids, include each acknowledged row in its place, and are all either there
   from the start or from an insert of this run.
   */
  ghost predicate Answered(volume: Volume, rows: seq<Slot>, q: SelectQuery, output: seq<seq<Field>>)
    reads volume
  {
    && ReadHeader(volume.table.Now()).Good?
    && output == Answer(TableRows(volume), q) && Answers(TableRows(volume), q, output)
    && Distinct(IdsOf(TableRows(volume)))
    && Includes(TableRows(volume), volume.world.acked)
    && ReadOnlyView(volume.world).Some?
    && Shows(TableRows(volume), ReadOnlyView(volume.world).value)
    && Sourced(ReadOnlyView(volume.world).value, rows, Inserted(volume.history))
  }

  /** All that holds of an answer when the test for a journal failed: see BlindOpen. */
  ghost predicate AsTheHeaderCounts(volume: Volume, q: SelectQuery, output: seq<seq<Field>>)
    reads volume
  {
    && ReadHeader(volume.table.Now()).Good?
    && (Distinct(IdsOf(TableRows(volume))) ==>
          output == Answer(TableRows(volume), q) && Answers(TableRows(volume), q, output))
    && BlindView(volume.world).Some? && Shows(TableRows(volume), BlindView(volume.world).value)
  }

  lemma BlindTells(volume: Volume, q: SelectQuery, output: seq<seq<Field>>)
    requires volume.Valid() && ReadHeader(volume.table.Now()).Good?
    requires Distinct(IdsOf(TableRows(volume))) ==> output == Answer(TableRows(volume), q)
    requires SemanticOk(AstSelect(q))
    ensures AsTheHeaderCounts(volume, q, output)
  {
    hide Answers, SemanticOk, P.Runs, Deserialize, ReadHeader, Rows, Decoded, Distinct, IdsOf, Answer;
    DecodedViews(volume.table.Now(), ReadHeader(volume.table.Now()).count);
    ValidAnswerMeans(TableRows(volume), q);
  }

  /** The rows, read from these slots. */
  ghost predicate Shows(rows: seq<Row>, slots: seq<Slot>) {
    |rows| == |slots| && forall k :: 0 <= k < |rows| ==> rows[k] == Deserialize(slots[k])
  }

  lemma SelectTells(volume: Volume, rows: seq<Slot>, q: SelectQuery, output: seq<seq<Field>>)
    requires Running(volume, rows) && volume.world.Journal().None? && ReadHeader(volume.table.Now()).Good?
    requires output == Answer(TableRows(volume), q) && SemanticOk(AstSelect(q))
    ensures Answered(volume, rows, q, output)
  {
    hide Answers, SemanticOk, P.Runs, FreshHandles, ChecksIds, P.Initial, P.Careful, IdOf, Deserialize, ReadHeader,
      Rows, Decoded, Distinct,
      IdsOf, Answer, Includes, UniqueIds, Sourced;
    SoundRows(volume, rows);
    FreshHandlesAreCareful(volume.start, volume.history);
    NoInventedRows(volume.start, rows, volume.history, volume.world);
    DecodedViews(volume.table.Now(), ReadHeader(volume.table.Now()).count);
    ValidAnswerMeans(TableRows(volume), q);
  }

  /**
   `execute`, and the guarantee of the whole engine. From a settled table with unique ids,
   through any statements, errors and crashes, and with anything at all in the index file:
   a SELECT that succeeds is `Answered`, and changes nothing that is shown; an INSERT has an
   `Outcome` that ties its status to the rows it found and to those it leaves; and where no
   call fails nothing the engine has left behind is reported as corrupt.
   */
  method Execute(volume: Volume, ghost rows: seq<Slot>, ast: Ast)
    returns (status: ExecStatus, output: seq<seq<Field>>, ghost before: Option<seq<Slot>>, ghost tested: bool)
    requires Sound(volume, rows)
    modifies volume
    ensures Sound(volume, rows) && old(volume.history) <= volume.history && volume.reported == |old(volume.history)|
    ensures volume.reliable == old(volume.reliable) && (volume.reliable ==> tested)
    ensures !SemanticOk(ast) ==>
              && volume.world == old(volume.world) && volume.history == old(volume.history)
              && volume.index == old(volume.index)
    ensures volume.reliable ==> status != ExecTableCorrupt
    ensures !SemanticOk(ast) ==> status == ExecSemanticError
    ensures SemanticOk(ast) && ast.AstSelect? ==>
              && NoInsertSince(old(volume.history), volume.history)
              && volume.world.acked == old(volume.world.acked) && volume.table == old(volume.table)
              && ReadOnlyView(volume.world) == ReadOnlyView(old(volume.world))
              && (volume.index == old(volume.index)
                  || (ReadHeader(volume.table.Now()).Good? && HoldsExact(volume.index, TableIds(volume))))
              && status in {ExecOk, ExecIoError, ExecTableCorrupt}
              && (volume.reliable && volume.world.Journal().None? ==> status == ExecOk)
              && (tested && status != ExecIoError ==> volume.world.Journal().None?)
              && (status == ExecOk && volume.world.Journal().None? ==>
                    Answered(volume, rows, ast.select, output))
              && (status == ExecOk ==> AsTheHeaderCounts(volume, ast.select, output))
    ensures SemanticOk(ast) && ast.AstInsert? ==>
              Outcome(status, before, ast.insert.id, ast.insert.name, volume.start, old(volume.history),
                      old(volume.world), volume.history, volume.world, volume.reliable, old(volume.index),
                      volume.index)
  {
    hide P.Runs, FreshHandles, ChecksIds, P.Initial, ReadHeader, LoadIndex, ExactIndex, Distinct, IdsOf, Index.Valid,
      Decoded, Rows, NewId, Serialize, TrueOffset, TrueSize, UniqueIds, NewRow, IdOf, SemanticOk, Answer, Outcome,
      HasRoom, OpenBlames, Includes, Committed, Answered, AsTheHeaderCounts, HoldsExact;
    output, before, tested := [], None, true;
    ghost var h0, w0, file0 := volume.history, volume.world, volume.index;
    volume.reported := |h0|;
    if !SemanticOk(ast) || ast.AstUnknown? { return ExecSemanticError, [], None, true; }
    match ast
    case AstSelect(q) =>
      ghost var atOpen;
      status, output, tested, atOpen := ExecuteSelect(volume, q);
      GoesOn(volume.start, h0, volume.history);
      HistoryGrows(h0, volume.history);
      if status == ExecOk { BlindTells(volume, q, output); }
      if volume.world.Journal().None? {
        SoundHeader(volume, rows);
        SoundRows(volume, rows);
        if status == ExecOk { SelectTells(volume, rows, q, output); }
      }
    case AstInsert(q) =>
      ghost var atOpen;
      status, before, atOpen := ExecuteInsert(volume, rows, q.id, q.name);
      NeverCorruptIfReliable(status, before, q.id, q.name, volume.start, h0, w0, volume.history, volume.world,
                             volume.reliable, file0, volume.index);
  }

  lemma NeverCorruptIfReliable(status: ExecStatus, before: Option<seq<Slot>>, id: int32, name: string, start: P.World,
                               h0: seq<P.Event>, w0: P.World, h: seq<P.Event>, w: P.World, reliable: bool,
                               file0: Option<seq<byte>>, file: Option<seq<byte>>)
    requires Outcome(status, before, id, name, start, h0, w0, h, w, reliable, file0, file)
    ensures reliable ==> status != ExecTableCorrupt
  {
    hide FoundRows, InsertsOnly, Exact, NewSlot, NewId;
  }

  /**
   Failures wear off. After any statements during which any calls failed, a statement in which
   none does has exactly the status it should: a SELECT succeeds unless recovery is due, an
   INSERT finds its rows, and says of them what is so.
   */
  method ExecuteAfterFailures(volume: Volume, ghost rows: seq<Slot>, earlier: seq<Ast>, last: Ast)
    returns (status: ExecStatus, output: seq<seq<Field>>, ghost before: Option<seq<Slot>>, ghost h: seq<P.Event>,
             ghost w: P.World, ghost file: Option<seq<byte>>)
    requires Sound(volume, rows)
    modifies volume
    ensures Sound(volume, rows) && old(volume.history) <= h <= volume.history && P.Runs(volume.start, h, w)
    ensures status != ExecTableCorrupt
    ensures !SemanticOk(last) ==> status == ExecSemanticError
    ensures SemanticOk(last) && last.AstSelect? ==>
              && ReadOnlyView(volume.world) == ReadOnlyView(w)
              && (status == ExecOk <==> volume.world.Journal().None?)
              && (status == ExecOk ==> Answered(volume, rows, last.select, output))
    ensures SemanticOk(last) && last.AstInsert? ==>
              && before.Some? && FoundRows(volume.start, h, w, volume.history, before.value)
              && Outcome(status, before, last.insert.id, last.insert.name, volume.start, h, w, volume.history,
                         volume.world, true, file, volume.index)
              && (HasRoom(|before.value|) ==> Exact(status, before.value, last.insert.id, last.insert.name))
              && (HasRoom(|before.value|) && |before.value| + 1 < U32 ==>
                    Indexed(status, before.value, NewSlot(last.insert.id, last.insert.name), file, volume.index))
  {
    hide P.Runs, FreshHandles, ChecksIds, P.Initial, ReadHeader, SemanticOk, Answered, AsTheHeaderCounts, FoundRows,
      Explained, InsertsOnly, Exact, HasRoom, ReadOnlyView, Indexed, NewSlot;
    volume.reliable := false;
    for i := 0 to |earlier|
      invariant Sound(volume, rows) && old(volume.history) <= volume.history && !volume.reliable
    {
      var s, o, b, t := Execute(volume, rows, earlier[i]);
    }
    volume.reliable := true;
    h, w, file := volume.history, volume.world, volume.index;
    ghost var tested;
    status, output, before, tested := Execute(volume, rows, last);
  }
}
