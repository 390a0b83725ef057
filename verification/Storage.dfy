/**
 The storage engine as objects that change: the directory the table lives in, an open
 table, and the row scanner (src/storage.c). Every call that changes the disk is logged as
 an event of the Protocol machine, so whatever these methods do is one of its runs.
 */
module Storage {
  import opened Bytes
  import opened Layout
  import opened Journal
  import opened Disk
  import P = Protocol
  import opened CrashSafety
  import StaleHandle
  import opened StatementRuns
  import opened Keys

  /**
   The table file, the journal's temporary file and directory entry, and the index file.
   The first group of methods stands for the operating system: each may fail.
   */
  class Volume {
    const name: TableName
    /**
     No call to the system fails now. Where this is false each may. It may be set between
     statements, so that what is promised of a statement in which nothing fails is promised
     whatever failed before it.
     */
    var reliable: bool
    var table: File
    var temp: Option<File>
    var entries: P.Entries
    var index: Option<seq<byte>>
    ghost const start: P.World
    ghost var world: P.World
    ghost var history: seq<P.Event>
    /** How long the history was when the last statement began: what was before is told. */
    ghost var reported: nat

    /** The machine of Protocol has run from `start` through `history` to `world`. */
    ghost predicate Logged()
      reads this
    {
      P.Runs(start, history, world)
    }

    /** `world` describes the real fields. */
    ghost predicate Mirrored()
      reads this
    {
      world.name == name && world.table == table && world.temp == temp && world.entries == entries
    }

    ghost predicate Valid()
      reads this
    {
      Logged() && Mirrored() && (world.ctl.Open? || world.ctl.Closed?) && world.temp.None?
    }

    constructor (initial: P.World, index: Option<seq<byte>>, reliable: bool)
      requires initial.ctl.Closed? && initial.temp.None?
      ensures Valid() && start == world == initial && history == [] && this.index == index && this.reliable == reliable
      ensures reported == 0
    {
      hide P.Next, P.Enabled;
      name, this.reliable := initial.name, reliable;
      table, temp, entries := initial.table, initial.temp, initial.entries;
      this.index := index;
      start, world, history, reported := initial, initial, [], 0;
    }

    ghost method Log(e: P.Event)
      requires Logged() && P.Enabled(world, e)
      modifies this`world, this`history
      ensures Logged() && world == P.Next(old(world), e) && history == old(history) + [e]
    {
      hide P.Runs, P.Next, P.Enabled;
      StaleHandle.Extend(start, history, world, e, P.Next(world, e));
      world := P.Next(world, e);
      history := history + [e];
    }

    // ----- the operating system -----

    /** fseek, fwrite and fflush; on failure some of the bytes may have been written. */
    method WriteTable(offset: nat, bytes: seq<byte>) returns (ok: bool, ghost written: nat)
      requires offset <= LONG_MAX
      modifies this`table
      ensures reliable && offset + |bytes| <= LONG_MAX ==> ok
      ensures ok ==> offset + |bytes| <= LONG_MAX && table == P.WriteTable(old(table), offset, bytes)
      ensures !ok ==> offset + |P.Prefix(bytes, written)| <= LONG_MAX
                      && table == P.WriteTable(old(table), offset, P.Prefix(bytes, written))
    {
      ok := *;
      ok := ok || reliable;
      if offset + |bytes| > LONG_MAX { ok := false; }
      if ok {
        table := P.WriteTable(table, offset, bytes);
        written := |bytes|;
      } else {
        var n: nat := *;
        if offset + |P.Prefix(bytes, n)| > LONG_MAX { n := 0; }
        table := P.WriteTable(table, offset, P.Prefix(bytes, n));
        written := n;
      }
    }

    method SyncTable() returns (ok: bool)
      modifies this`table
      ensures table == if ok then Synced(old(table)) else old(table)
      ensures reliable ==> ok
    {
      ok := *;
      ok := ok || reliable;
      if ok { table := Synced(table); }
    }

    method TruncateTable(length: nat) returns (ok: bool)
      modifies this`table
      ensures table == if ok then Changed(old(table), Resize(old(table).Now(), length)) else old(table)
      ensures reliable ==> ok
    {
      ok := *;
      ok := ok || reliable;
      if ok { table := Changed(table, Resize(table.Now(), length)); }
    }

    method MakeTemp() returns (ok: bool)
      modifies this`temp
      ensures temp == if ok then Some(File([[]])) else old(temp)
      ensures reliable ==> ok
    {
      ok := *;
      ok := ok || reliable;
      if ok { temp := Some(File([[]])); }
    }

    method WriteTemp(bytes: seq<byte>) returns (ok: bool)
      requires temp.Some?
      modifies this`temp
      ensures temp.Some?
      ensures ok ==> temp == Some(P.WriteTable(old(temp).value, 0, bytes))
      ensures reliable ==> ok
    {
      ok := *;
      ok := ok || reliable;
      var n: nat := *;
      temp := Some(P.WriteTable(temp.value, 0, if ok then bytes else P.Prefix(bytes, n)));
    }

    method SyncTemp() returns (ok: bool)
      requires temp.Some?
      modifies this`temp
      ensures temp == if ok then Some(Synced(old(temp).value)) else old(temp)
      ensures reliable ==> ok
    {
      ok := *;
      ok := ok || reliable;
      if ok { temp := Some(Synced(temp.value)); }
    }

    method UnlinkTemp()
      modifies this`temp
      ensures temp == None
    {
      temp := None;
    }

    method RenameTemp() returns (ok: bool)
      requires temp.Some?
      modifies this`temp, this`entries
      ensures ok ==> temp == None && entries == old(entries) + [old(temp)]
      ensures !ok ==> temp == old(temp) && entries == old(entries)
      ensures reliable ==> ok
    {
      ok := *;
      ok := ok || reliable;
      if ok { temp, entries := None, entries + [temp]; }
    }

    method UnlinkJournal() returns (ok: bool)
      modifies this`entries
      ensures entries == if ok then old(entries) + [None] else old(entries)
      ensures reliable ==> ok
    {
      ok := *;
      ok := ok || reliable;
      if ok { entries := entries + [None]; }
    }

    method SyncDirectory() returns (ok: bool)
      modifies this`entries
      ensures entries == if ok then [old(entries)[|old(entries)| - 1]] else old(entries)
      ensures reliable ==> ok
    {
      ok := *;
      ok := ok || reliable;
      if ok { entries := [entries[|entries| - 1]]; }
    }

    /**
     Temporary file, rename and directory synchronisation for the index file. The last of
     these makes the journal's entry durable too, for it is the same directory.
     */
    method ReplaceIndexFile(bytes: seq<byte>) returns (ok: bool)
      requires Valid()
      modifies this`index, this`entries, this`world, this`history
      ensures Valid() && NoInsertSince(old(history), history)
      ensures world == old(world).(entries := world.entries) && world.Journal() == old(world.Journal())
      ensures ok ==> index == Some(bytes) && |entries| == 1
      ensures index == Some(bytes) || index == old(index)
      ensures reliable ==> ok
    {
      hide P.Runs, P.InsertSucceeds, P.InsertFails, P.RecoverSucceeds, P.RecoverFails, P.StartOpen, CrashImage;
      ok := *;
      ok := ok || reliable;
      if !ok { return false; }
      index := Some(bytes);
      ok := SyncDirectory();
      if ok { Log(P.SyncDirectory); }
    }

    // ----- opening -----

    /** The table file once an insert on `count` rows is undone: their header, and nothing behind their slots. */
    static function Undone(m: seq<byte>, count: uint64): (r: seq<byte>)
      ensures |r| == TrueSize(count)
    {
      Resize(Patch(m, 0, Header(count)), TrueSize(count))
    }

    /** `recover_insert_journal`. `recovered` tells whether a journal had to be undone. */
    method RecoverInsertJournal() returns (status: TableStatus, ghost recovered: bool)
      requires Valid() && world.ctl.Closed?
      modifies this`table, this`entries, this`world, this`history
      ensures Valid()
      ensures NoInsertSince(old(history), history)
      ensures status == TableOk && !recovered ==> world == old(world) && world.Journal().None?
      ensures status == TableOk && recovered ==>
                old(world).Journal().Some? && world.Journal().None? && world.ctl == P.Opened(world).ctl
      ensures status == TableOk && recovered ==>
                var c := Decode(old(world).Journal().value.Now(), name);
                c.Some? && table.Now() == Undone(old(table).Now(), c.value)
      ensures status != TableOk ==> world.ctl.Closed?
      ensures status == TableCorrupt && reliable ==>
                old(world).Journal().Some? && Decode(old(world).Journal().value.Now(), name).None?
      ensures status in {TableOk, TableCorrupt, TableDurabilityError}
      ensures world.acked == old(world).acked && (reliable ==> status != TableDurabilityError)
    {
      hide Encode, Header, Decode, P.Runs, TrueSize, TrueOffset, Patch, Resize, ReadHeader, P.CanInsert;
      recovered := false;
      var entry := entries[|entries| - 1];
      if entry.None? { return TableOk, false; }
      var readable := *;
      if !(readable || reliable) { return TableDurabilityError, false; }
      // a read that fails or falls short counts as a malformed journal
      var delivered := *;
      if !(delivered || reliable) { return TableCorrupt, false; }
      var content := entry.value.Now();
      var bytes := new byte[|content|](i requires 0 <= i < |content| => content[i]);
      assert bytes[..] == content;
      var decoded := DecodeJournal(bytes, name);
      if decoded.None? { return TableCorrupt, false; }
      var previous := decoded.value;
      Log(P.OpenTable);
      status := Rollback(previous);
      recovered := true;
    }

    /** The second half of recovery, once the journal is accepted. */
    method Rollback(previous: uint64) returns (status: TableStatus)
      requires Logged() && Mirrored() && world.temp.None? && world.ctl == P.Recovering(P.Restore, previous)
      modifies this`table, this`entries, this`world, this`history
      ensures Valid()
      ensures NoInsertSince(old(history), history)
      ensures status == TableOk ==> world.Journal().None? && world.ctl == P.Opened(world).ctl
      ensures status == TableOk ==> table.Now() == Undone(old(table).Now(), previous)
      ensures status != TableOk ==> status == TableDurabilityError && world.ctl.Closed?
      ensures world.acked == old(world).acked && (reliable ==> status == TableOk)
    {
      hide P.Runs, P.Opened, ReadHeader, Header, TrueSize, TrueOffset, Patch, Resize;
      status := RestoreHeader(previous);
      if status != TableOk { return; }
      status := CutBack(previous);
      if status != TableOk { return; }
      status := RemoveUndoneJournal(previous);
    }

    method RestoreHeader(previous: uint64) returns (status: TableStatus)
      requires Logged() && Mirrored() && world.temp.None? && world.ctl == P.Recovering(P.Restore, previous)
      modifies this`table, this`world, this`history
      ensures Logged() && Mirrored() && world.temp.None? && NoInsertSince(old(history), history)
      ensures status == TableOk || status == TableDurabilityError
      ensures world.ctl == if status == TableOk then P.Recovering(P.Truncate, previous) else P.Closed
      ensures status == TableOk ==> table == File([Patch(old(table).Now(), 0, Header(previous))])
      ensures world.acked == old(world).acked && (reliable ==> status == TableOk)
    {
      hide Encode, Header, Decode, P.Runs, TrueSize, TrueOffset, Patch, Resize, ReadHeader, P.CanInsert, P.Prefix;
      var ok, written := WriteTable(0, Header(previous));
      if !ok { Log(P.Fail(written)); return TableDurabilityError; }
      Log(P.Succeed);
      ok := SyncTable();
      if !ok { Log(P.Fail(0)); return TableDurabilityError; }
      Log(P.Succeed);
      return TableOk;
    }

    method CutBack(previous: uint64) returns (status: TableStatus)
      requires Logged() && Mirrored() && world.temp.None? && world.ctl == P.Recovering(P.Truncate, previous)
      modifies this`table, this`world, this`history
      ensures Logged() && Mirrored() && world.temp.None? && NoInsertSince(old(history), history)
      ensures status == TableOk || status == TableDurabilityError
      ensures world.ctl == if status == TableOk then P.Recovering(P.DropJournal, previous) else P.Closed
      ensures status == TableOk ==> table == File([Resize(old(table).Now(), TrueSize(previous))])
      ensures world.acked == old(world).acked && (reliable ==> status == TableOk)
    {
      hide Encode, Header, Decode, P.Runs, TrueSize, TrueOffset, Patch, Resize, ReadHeader, P.CanInsert, P.Prefix;
      var ok := TruncateTable(TrueSize(previous));
      if !ok { Log(P.Fail(0)); return TableDurabilityError; }
      Log(P.Succeed);
      ok := SyncTable();
      if !ok { Log(P.Fail(0)); return TableDurabilityError; }
      Log(P.Succeed);
      return TableOk;
    }

    method RemoveUndoneJournal(previous: uint64) returns (status: TableStatus)
      requires Logged() && Mirrored() && world.temp.None? && world.ctl == P.Recovering(P.DropJournal, previous)
      modifies this`entries, this`world, this`history
      ensures Valid() && NoInsertSince(old(history), history)
      ensures status == TableOk || status == TableDurabilityError
      ensures status == TableOk ==> world.Journal().None? && world.ctl == P.Opened(world).ctl
      ensures status != TableOk ==> world.ctl.Closed?
      ensures world.acked == old(world).acked && (reliable ==> status == TableOk)
    {
      hide Encode, Header, Decode, P.Runs, TrueSize, TrueOffset, Patch, Resize, ReadHeader, P.CanInsert, P.Prefix;
      var ok := UnlinkJournal();
      if !ok { Log(P.Fail(0)); return TableDurabilityError; }
      Log(P.Succeed);
      ok := SyncDirectory();
      if !ok { Log(P.Fail(0)); return TableDurabilityError; }
      Log(P.Succeed);
      return TableOk;
    }

    /** A handle on this volume's table that has just been opened counts what the header counts. */
    ghost predicate CountsHeader(table: Table, writable: bool)
      reads this, table
    {
      && table.volume == this && table.writable == writable
      && ReadHeader(this.table.Now()) == Good(table.rowCount)
    }

    static lemma UndoneHeader(m: seq<byte>, count: uint64)
      ensures ReadHeader(Undone(m, count)) == if TrueSize(count) <= LONG_MAX then Good(count) else Bad(TableIoError)
    {
      hide Header, TrueSize, TrueOffset, Patch, Resize;
      SizeBeforeNextRow(count);
      PatchHeaderWrites(m, count);
      ResizeHeader(Patch(m, 0, Header(count)), count, TrueSize(count));
      if TrueSize(count) <= LONG_MAX {
        ReadBackHeader(Undone(m, count), count);
      }
    }

    /** And no journal says otherwise. */
    ghost predicate Counts(table: Table, writable: bool)
      reads this, table
    {
      CountsHeader(table, writable) && world.Journal().None?
    }

    /** `storage_open_table_mode`, writable: recovery first, then the header's row count. */
    method OpenWritable() returns (status: TableStatus, table: Table?)
      requires Valid() && world.ctl.Closed?
      modifies this`table, this`entries, this`world, this`history
      ensures Valid() && NoInsertSince(old(history), history) && world.acked == old(world).acked
      ensures (status == TableOk) == (table != null)
      ensures table != null ==> fresh(table) && Counts(table, true)
      ensures world.ctl == if table != null then P.Open(table.rowCount) else P.Closed
      ensures table != null && old(world).Journal().None? ==> this.table == old(this.table)
      ensures table != null && old(world).Journal().Some? ==>
                && Decode(old(world).Journal().value.Now(), name) == Some(table.rowCount)
                && this.table.Now() == Undone(old(this.table).Now(), table.rowCount)
                && |this.table.Now()| == TrueSize(table.rowCount)
      ensures status in {TableOk, TableIoError, TableReadOnly, TableCorrupt, TableIncompatible, TableDurabilityError}
      ensures reliable ==> status != TableDurabilityError && status != TableReadOnly
      ensures reliable && status == TableIoError ==> world.Journal().None? && ReadHeader(this.table.Now()).Bad?
      ensures status == TableIncompatible || (status == TableCorrupt && reliable) ==>
                || (old(world).Journal().Some? && Decode(old(world).Journal().value.Now(), name).None?)
                || (world.Journal().None? && ReadHeader(this.table.Now()).Bad?)
    {
      hide Encode, Header, Decode, P.Runs, TrueSize, TrueOffset, Patch, Resize, ReadHeader, P.CanInsert;
      table := null;
      var openable := *;
      if !(openable || reliable) {
        var denied := *;
        return if denied then TableReadOnly else TableIoError, null;
      }
      ghost var recovered;
      status, recovered := RecoverInsertJournal();
      if status != TableOk { return; }
      var readable := *;
      if !(readable || reliable) {
        if recovered && world.ctl.Open? { Log(P.CloseTable); }
        return TableIoError, null;
      }
      // so does a header that cannot be read as a corrupt table
      var delivered := *;
      if !(delivered || reliable) && HEADER_SIZE <= |this.table.Now()| <= LONG_MAX {
        if recovered && world.ctl.Open? { Log(P.CloseTable); }
        return TableCorrupt, null;
      }
      if !recovered {
        Log(P.OpenTable);
      } else {
        UndoneHeader(old(this.table).Now(), Decode(old(world).Journal().value.Now(), name).value);
      }
      match ReadHeader(this.table.Now())
      case Bad(s) => status := s;
      case Good(count) =>
        status := TableOk;
        table := new Table(this, count, true);
    }

    /**
     `storage_open_table_mode`, read-only: nothing changes, and a journal means refusal. The
     test for a journal takes any failure of its call for an answer of no; `tested` tells
     whether the call worked.
     */
    method OpenReadOnly() returns (status: TableStatus, table: Table?, ghost tested: bool)
      requires Valid()
      ensures (status == TableOk) == (table != null)
      ensures table != null ==> fresh(table) && CountsHeader(table, false)
      ensures status in {TableOk, TableIoError, TableCorrupt, TableIncompatible, TableRecoveryRequired}
      ensures reliable ==> tested
      ensures tested && world.Journal().Some? ==> status == TableRecoveryRequired || status == TableIoError
      ensures reliable && world.Journal().Some? ==> status == TableRecoveryRequired
      ensures reliable && status == TableIoError ==> ReadHeader(this.table.Now()).Bad?
      ensures status == TableRecoveryRequired ==> world.Journal().Some?
      ensures status == TableIncompatible || (status == TableCorrupt && reliable) ==>
                ReadHeader(this.table.Now()).Bad?
    {
      hide ReadHeader, P.Runs, P.Opened;
      tested := true;
      var openable := *;
      if !(openable || reliable) { return TableIoError, null, true; }
      var answered := *;
      answered := answered || reliable;
      tested := answered;
      if answered && entries[|entries| - 1].Some? { return TableRecoveryRequired, null, tested; }
      var readable := *;
      if !(readable || reliable) { return TableIoError, null, tested; }
      var delivered := *;
      if !(delivered || reliable) && HEADER_SIZE <= |this.table.Now()| <= LONG_MAX {
        return TableCorrupt, null, tested;
      }
      match ReadHeader(this.table.Now())
      case Bad(s) => return s, null, tested;
      case Good(count) =>
        table := new Table(this, count, false);
        return TableOk, table, tested;
    }

    // ----- crashing -----

    /**
     Power is lost after the first `k` events of the history, wherever in an insert or a
     recovery that was, and comes back: the disk keeps what a crash may keep of that moment,
     the process is gone, and nothing at all is promised about the index file.
     */
    method PowerLoss(ghost k: nat, ghost moment: P.World, survivor: seq<byte>, ghost entry: nat, kept: bool,
                     journal: seq<byte>, index: Option<seq<byte>>)
      requires Valid() && k <= |history| && P.Runs(start, history[..k], moment)
      requires P.Enabled(moment, P.Crash(survivor, entry, journal)) && kept == moment.entries[entry].Some?
      modifies this`table, this`entries, this`temp, this`index, this`world, this`history
      ensures Valid() && world.ctl.Closed? && world.acked == moment.acked && this.index == index
      ensures history == old(history)[..k] + [P.Crash(survivor, entry, journal)]
    {
      hide P.Runs, CrashImage;
      ghost var crash := P.Crash(survivor, entry, journal);
      SameName(start, history, world);
      SameName(start, history[..k], moment);
      StaleHandle.Extend(start, history[..k], moment, crash, P.Next(moment, crash));
      world, history := P.Next(moment, crash), history[..k] + [crash];
      table, temp := File([survivor]), None;
      entries := [if kept then Some(File([journal])) else None];
      this.index := index;
    }
  }

  lemma {:induction false} SameName(w: P.World, es: seq<P.Event>, w': P.World)
    requires P.Runs(w, es, w')
    ensures w'.name == w.name
    decreases |es|
  {
    hide Encode, Header, Decode, TrueSize, TrueOffset, Patch, Resize, ReadHeader, CrashImage;
    if es != [] { SameName(P.Next(w, es[0]), es[1..], w'); }
  }

  /** The next row's slot ends where a file may still end. */
  predicate HasRoom(count: nat) {
    count < U64_MAX && TrueOffset(count) + ROW_SIZE <= LONG_MAX
  }

  datatype ScanStatus = ScanOk | ScanIoError | ScanCorrupt | ScanEnd

  /** The rows of a table image, as they are read into memory. */
  function Decoded(m: seq<byte>, count: nat): (r: seq<Row>)
    ensures |r| == count
    ensures forall k :: 0 <= k < count ==> r[k] == Deserialize(SlotAt(m, k))
  {
    if count == 0 then [] else Decoded(m, count - 1) + [Deserialize(SlotAt(m, count - 1))]
  }

  lemma {:induction false} DecodedViews(m: seq<byte>, count: nat)
    ensures forall k :: 0 <= k < count ==> Decoded(m, count)[k] == Deserialize(Rows(m, count)[k])
  {
    forall k | 0 <= k < count ensures Decoded(m, count)[k] == Deserialize(Rows(m, count)[k]) {
      RowsAt(m, count, k);
    }
  }

  /** An open table; `rowCount` is what the handle believes. */

  class Table {
    const volume: Volume
    const writable: bool
    var rowCount: uint64

    constructor (volume: Volume, rowCount: uint64, writable: bool)
      ensures this.volume == volume && this.rowCount == rowCount && this.writable == writable
    {
      this.volume, this.rowCount, this.writable := volume, rowCount, writable;
    }

    /** The volume is in order and this is its writable handle, if it is one. */
    ghost predicate Ready()
      reads this, volume
    {
      volume.Valid() && (writable ==> volume.world.ctl == P.Open(rowCount))
    }

    method Close()
      requires Ready()
      modifies volume`world, volume`history
      ensures volume.Valid() && volume.world == old(volume.world).(ctl := volume.world.ctl)
      ensures volume.world.ctl == if writable then P.Closed else old(volume.world.ctl)
      ensures NoInsertSince(old(volume.history), volume.history)
    {
      hide P.Runs;
      if writable { volume.Log(P.CloseTable); }
    }

    /** `persist_insert_journal`: on success the journal's entry is on stable storage. */
    method PersistInsertJournal(slot: Slot, offset: uint64, newCount: uint64) returns (status: TableStatus)
      requires volume.Logged() && volume.Mirrored() && volume.world.ctl == P.Inserting(P.MakeTemp, rowCount, slot)
      requires P.CanInsert(rowCount) && offset == TrueOffset(rowCount) && newCount == rowCount + 1
      modifies volume`temp, volume`entries, volume`world, volume`history
      ensures volume.Logged() && volume.Mirrored() && volume.world.temp.None?
      ensures NoInsertSince(old(volume.history), volume.history)
      ensures volume.world.acked == old(volume.world.acked)
      ensures volume.world.ctl ==
                if status == TableOk then P.Inserting(P.WriteRow, rowCount, slot) else P.Open(rowCount)
      ensures status == TableOk ==>
                volume.entries == [Some(File([Encode(volume.name, rowCount, newCount, offset, slot)]))]
      ensures status in {TableOk, TableReadOnly, TableDurabilityError}
      ensures volume.reliable ==> status == TableOk
    {
      hide Encode, Header, Decode, P.Runs, TrueSize, TrueOffset, Patch, Resize, ReadHeader, P.CanInsert, P.Prefix;
      status := SaveTemp(slot, offset, newCount);
      if status != TableOk { return; }
      var denied := *;
      var ok := volume.RenameTemp();
      if !ok {
        DiscardTemp(P.RenameTemp, slot);
        return if denied then TableReadOnly else TableDurabilityError;
      }
      volume.Log(P.Succeed);
      ok := volume.SyncDirectory();
      if !ok { volume.Log(P.Fail(0)); return TableDurabilityError; }
      volume.Log(P.Succeed);
      return TableOk;
    }

    /** The temporary file is given up, and the insert with it. */
    method DiscardTemp(ghost step: P.InsertStep, ghost slot: Slot)
      requires volume.Logged() && P.BeforeRename(step) && volume.world.ctl == P.Inserting(step, rowCount, slot)
      requires volume.world.name == volume.name && volume.world.table == volume.table
      requires volume.world.entries == volume.entries && P.CanInsert(rowCount)
      modifies volume`temp, volume`world, volume`history
      ensures volume.Valid() && volume.world.ctl == P.Open(rowCount)
      ensures NoInsertSince(old(volume.history), volume.history)
      ensures volume.world.acked == old(volume.world.acked)
    {
      hide Encode, Header, Decode, P.Runs, TrueSize, TrueOffset, Patch, Resize, ReadHeader, P.CanInsert, P.Prefix;
      volume.UnlinkTemp();
      volume.Log(P.Fail(0));
    }

    /** The journal's bytes, written and synchronised under a temporary name. */
    method SaveTemp(slot: Slot, offset: uint64, newCount: uint64) returns (status: TableStatus)
      requires volume.Logged() && volume.Mirrored() && volume.world.ctl == P.Inserting(P.MakeTemp, rowCount, slot)
      requires P.CanInsert(rowCount) && offset == TrueOffset(rowCount) && newCount == rowCount + 1
      modifies volume`temp, volume`world, volume`history
      ensures volume.Logged() && volume.Mirrored() && volume.world.temp.Some? == (status == TableOk)
      ensures NoInsertSince(old(volume.history), volume.history)
      ensures volume.world.acked == old(volume.world.acked)
      ensures volume.world.ctl ==
                if status == TableOk then P.Inserting(P.RenameTemp, rowCount, slot) else P.Open(rowCount)
      ensures status == TableOk ==>
                volume.temp == Some(File([Encode(volume.name, rowCount, newCount, offset, slot)]))
      ensures status in {TableOk, TableReadOnly, TableDurabilityError}
      ensures volume.reliable ==> status == TableOk
    {
      hide Encode, Header, Decode, P.Runs, TrueSize, TrueOffset, Patch, Resize, ReadHeader, P.CanInsert, P.Prefix;
      var bytes := BuildJournal(volume.name, rowCount, newCount, offset, slot);
      var denied := *;
      var ok := volume.MakeTemp();
      if !ok {
        DiscardTemp(P.MakeTemp, slot);
        return if denied then TableReadOnly else TableDurabilityError;
      }
      volume.Log(P.Succeed);
      status := FillTemp(slot, bytes[..]);
    }

    method FillTemp(ghost slot: Slot, bytes: seq<byte>) returns (status: TableStatus)
      requires volume.Logged() && volume.Mirrored() && volume.temp == Some(File([[]]))
      requires volume.world.ctl == P.Inserting(P.WriteTemp, rowCount, slot) && P.CanInsert(rowCount)
      requires bytes == P.JournalBytes(volume.world)
      modifies volume`temp, volume`world, volume`history
      ensures volume.Logged() && volume.Mirrored() && volume.world.temp.Some? == (status == TableOk)
      ensures NoInsertSince(old(volume.history), volume.history)
      ensures volume.world.acked == old(volume.world.acked)
      ensures volume.world.ctl ==
                if status == TableOk then P.Inserting(P.RenameTemp, rowCount, slot) else P.Open(rowCount)
      ensures status == TableOk ==> volume.temp == Some(File([bytes]))
      ensures status == TableOk || (status == TableDurabilityError && !volume.reliable)
    {
      hide Encode, Header, Decode, P.Runs, TrueSize, TrueOffset, Patch, Resize, ReadHeader, P.CanInsert, P.Prefix,
        P.JournalBytes;
      PatchEmpty(bytes);
      var ok := volume.WriteTemp(bytes);
      if !ok { DiscardTemp(P.WriteTemp, slot); return TableDurabilityError; }
      volume.Log(P.Succeed);
      ok := volume.SyncTemp();
      if !ok { DiscardTemp(P.SyncTemp, slot); return TableDurabilityError; }
      volume.Log(P.Succeed);
      return TableOk;
    }

    method WriteSyncedRow(slot: Slot, offset: uint64) returns (status: TableStatus)
      requires volume.Logged() && volume.Mirrored() && volume.world.temp.None?
      requires volume.world.ctl == P.Inserting(P.WriteRow, rowCount, slot)
      requires P.CanInsert(rowCount) && offset == TrueOffset(rowCount) <= LONG_MAX
      modifies volume`table, volume`world, volume`history
      ensures volume.Logged() && volume.Mirrored() && volume.world.temp.None?
      ensures NoInsertSince(old(volume.history), volume.history)
      ensures volume.world.acked == old(volume.world.acked)
      ensures volume.world.ctl ==
                if status == TableOk then P.Inserting(P.WriteHeader, rowCount, slot) else P.Open(rowCount)
      ensures status == TableOk ==> volume.table == File([Patch(old(volume.table).Now(), offset, slot)])
      ensures status in {TableOk, TableIoError, TableDurabilityError}
      ensures volume.reliable && offset + ROW_SIZE <= LONG_MAX ==> status == TableOk
    {
      hide Encode, Header, Decode, P.Runs, TrueSize, TrueOffset, Patch, Resize, ReadHeader, P.CanInsert, P.Prefix;
      var ok, written := volume.WriteTable(offset, slot);
      if !ok { volume.Log(P.Fail(written)); return TableIoError; }
      volume.Log(P.Succeed);
      ok := volume.SyncTable();
      if !ok { volume.Log(P.Fail(0)); return TableDurabilityError; }
      volume.Log(P.Succeed);
      return TableOk;
    }

    method WriteSyncedHeader(slot: Slot, newCount: uint64) returns (status: TableStatus)
      requires volume.Logged() && volume.Mirrored() && volume.world.temp.None?
      requires volume.world.ctl == P.Inserting(P.WriteHeader, rowCount, slot)
      requires P.CanInsert(rowCount) && newCount == rowCount + 1
      modifies volume`table, volume`world, volume`history
      ensures volume.Logged() && volume.Mirrored() && volume.world.temp.None?
      ensures NoInsertSince(old(volume.history), volume.history)
      ensures volume.world.acked == old(volume.world.acked)
      ensures volume.world.ctl ==
                if status == TableOk then P.Inserting(P.UnlinkJournal, rowCount, slot) else P.Open(rowCount)
      ensures status == TableOk ==> volume.table == File([Patch(old(volume.table).Now(), 0, Header(newCount))])
      ensures status == TableOk || status == TableDurabilityError
      ensures volume.reliable ==> status == TableOk
    {
      hide Encode, Header, Decode, P.Runs, TrueSize, TrueOffset, Patch, Resize, ReadHeader, P.CanInsert, P.Prefix;
      var ok, written := volume.WriteTable(0, Header(newCount));
      if !ok { volume.Log(P.Fail(written)); return TableDurabilityError; }
      volume.Log(P.Succeed);
      ok := volume.SyncTable();
      if !ok { volume.Log(P.Fail(0)); return TableDurabilityError; }
      volume.Log(P.Succeed);
      return TableOk;
    }

    /** Removing the journal is the commit point. */
    method RemoveJournal(slot: Slot) returns (status: TableStatus)
      requires volume.Logged() && volume.Mirrored() && volume.world.temp.None?
      requires volume.world.ctl == P.Inserting(P.UnlinkJournal, rowCount, slot)
      requires P.CanInsert(rowCount) && rowCount < U64_MAX
      modifies volume`entries, volume`world, volume`history
      ensures volume.Valid()
      ensures NoInsertSince(old(volume.history), volume.history)
      ensures status == TableOk || status == TableDurabilityError
      ensures volume.reliable ==> status == TableOk
      ensures status == TableOk ==>
                volume.entries == [None] && volume.world.ctl == P.Open(rowCount + 1)
                && volume.world.acked == old(volume.world.acked)[rowCount := slot]
      ensures status != TableOk ==>
                volume.world.ctl == P.Open(rowCount) && volume.world.acked == old(volume.world.acked)
    {
      hide Encode, Header, Decode, P.Runs, TrueSize, TrueOffset, Patch, Resize, ReadHeader, P.CanInsert, P.Prefix;
      var ok := volume.UnlinkJournal();
      if !ok { volume.Log(P.Fail(0)); return TableDurabilityError; }
      volume.Log(P.Succeed);
      ok := volume.SyncDirectory();
      if !ok { volume.Log(P.Fail(0)); return TableDurabilityError; }
      volume.Log(P.Succeed);
      return TableOk;
    }

    /** The second half of an insert, once its journal is durable. */
    method WriteCommitted(slot: Slot, offset: uint64, newCount: uint64) returns (status: TableStatus)
      requires volume.Logged() && volume.Mirrored() && volume.world.temp.None?
      requires volume.world.ctl == P.Inserting(P.WriteRow, rowCount, slot)
      requires P.CanInsert(rowCount) && offset == TrueOffset(rowCount) <= LONG_MAX && newCount == rowCount + 1
      modifies volume`table, volume`entries, volume`world, volume`history
      ensures volume.Valid() && NoInsertSince(old(volume.history), volume.history)
      ensures volume.world.ctl == P.Open(if status == TableOk then newCount else rowCount)
      ensures volume.world.acked ==
                if status == TableOk then old(volume.world.acked)[rowCount := slot] else old(volume.world.acked)
      ensures status == TableOk ==>
                && volume.table == File([Patch(Patch(old(volume.table).Now(), offset, slot), 0, Header(newCount))])
                && volume.entries == [None]
      ensures volume.reliable && offset + ROW_SIZE <= LONG_MAX ==> status == TableOk
    {
      hide P.Runs, TrueOffset, P.CanInsert, Patch, Header;
      status := WriteSyncedRow(slot, offset);
      if status != TableOk { return; }
      status := WriteSyncedHeader(slot, newCount);
      if status != TableOk { return; }
      status := RemoveJournal(slot);
    }

    /**
     `storage_insert_row`: a run of the machine that begins this insert and no other. It
     returns TABLE_OK exactly when it acknowledges the row, at the handle's old count.
     */
    method InsertRow(row: Row) returns (status: TableStatus, offset: uint64)
      requires |row.name| == NAME_SIZE && Ready()
      modifies volume`table, volume`temp, volume`entries, volume`world, volume`history, this`rowCount
      ensures Ready()
      ensures volume.history == old(volume.history)
              || NoInsertSince(old(volume.history) + [P.BeginInsert(Serialize(row))], volume.history)
      ensures status == TableOk ==>
                && volume.world.Journal().None?
                && rowCount == old(rowCount) + 1 && offset == TrueOffset(old(rowCount)) && offset <= LONG_MAX
                && volume.world.acked == old(volume.world.acked)[old(rowCount) := Serialize(row)]
      ensures status == TableOk ==>
                && volume.entries == [None]
                && volume.table ==
                   File([Patch(Patch(old(volume.table).Now(), offset, Serialize(row)), 0, Header(rowCount))])
      ensures status != TableOk ==> rowCount == old(rowCount) && volume.world.acked == old(volume.world.acked)
      ensures !writable ==> status == TableReadOnly && volume.world == old(volume.world)
      ensures volume.reliable && writable && HasRoom(old(rowCount)) ==> status == TableOk
    {
      hide Encode, Decode, P.Runs, TrueSize, TrueOffset, ReadHeader, P.Prefix, P.InsertSucceeds, P.InsertFails,
        P.RecoverSucceeds, P.RecoverFails, P.StartOpen, OffsetForRow, CheckedAdd, Serialize, Patch, Header;
      offset := 0;
      if !writable { return TableReadOnly, 0; }
      var at := OffsetForRow(rowCount);
      var next := CheckedAdd(rowCount, 1);
      if at.None? || at.value > LONG_MAX || next.None? { return TableIoError, 0; }
      var slot := Serialize(row);
      volume.Log(P.BeginInsert(slot));
      status := PersistInsertJournal(slot, at.value, next.value);
      if status != TableOk { return; }
      status := WriteCommitted(slot, at.value, next.value);
      if status != TableOk { return; }
      rowCount := next.value;
      offset := at.value;
    }

    // ----- reading -----

    function Image(): seq<byte>
      reads volume`table
    {
      volume.table.Now()
    }

    /** The table file is as long as its rows need: what an accepted header promises. */
    ghost predicate Sized()
      reads this`rowCount, volume`table
    {
      TrueSize(rowCount) <= |Image()| <= LONG_MAX
    }

    method FileSize() returns (status: TableStatus, size: uint64)
      ensures status == TableOk ==> size == |Image()| <= LONG_MAX
      ensures status == TableOk || status == TableIoError
      ensures volume.reliable && |Image()| <= LONG_MAX ==> status == TableOk
    {
      var ok := *;
      if !(ok || volume.reliable) || |Image()| > LONG_MAX { return TableIoError, 0; }
      return TableOk, |Image()|;
    }

    /** `storage_read_row_at_offset`: only whole rows the handle counts can be read. */
    method ReadRowAtOffset(offset: uint64) returns (status: TableStatus, row: Row)
      ensures status in {TableOk, TableIoError, TableInvalidOffset}
      ensures volume.reliable && |Image()| <= LONG_MAX ==> status != TableIoError
      ensures status == TableOk ==>
                exists n: nat :: n < rowCount && TrueOffset(n) == offset && row == Deserialize(SlotAt(Image(), n))
      ensures status == TableInvalidOffset ==>
                forall n: nat :: n < rowCount && TrueOffset(n) == offset ==> offset + ROW_SIZE > |Image()|
    {
      hide SlotAt, TrueOffset, Deserialize;
      row := Row(0, Zeros(NAME_SIZE));
      var size;
      status, size := FileSize();
      if status != TableOk { return; }
      if !IsValidRowOffset(offset, size, rowCount) { return TableInvalidOffset, row; }
      var ok := *;
      if !(ok || volume.reliable) { return TableIoError, row; }
      var bytes: Slot := Image()[offset..offset + ROW_SIZE];
      row := Deserialize(bytes);
      ghost var n: uint64 :| n < rowCount && TrueOffset(n) == offset;
      assert bytes == SlotAt(Image(), n) by {
        forall i | 0 <= i < ROW_SIZE ensures bytes[i] == SlotAt(Image(), n)[i] {
          assert SlotAt(Image(), n)[i] == At(Image(), TrueOffset(n) + i);
        }
      }
    }

    /** `storage_find_id`: the first row with the id, or the assurance that there is none. */
    method FindId(id: int32) returns (status: ScanStatus, row: Row, offset: uint64)
      requires Sized()
      ensures status in {ScanOk, ScanEnd, ScanIoError} && (volume.reliable ==> status != ScanIoError)
      ensures status == ScanOk ==>
                exists k :: 0 <= k < rowCount && row == Decoded(Image(), rowCount)[k] && offset == TrueOffset(k)
                            && row.id == id && forall j :: 0 <= j < k ==> Decoded(Image(), rowCount)[j].id != id
      ensures status == ScanEnd ==> forall k :: 0 <= k < rowCount ==> Decoded(Image(), rowCount)[k].id != id
    {
      hide SlotAt, TrueOffset, TrueSize, Deserialize, Decoded;
      var scan := new RowScanner(this);
      ghost var rows := Decoded(Image(), rowCount);
      while true
        invariant scan.table == this && scan.rowCount == rowCount && scan.nextRow <= rowCount
        invariant fresh(scan)
        invariant forall k :: 0 <= k < scan.nextRow ==> rows[k].id != id
        decreases rowCount - scan.nextRow
      {
        status, row, offset := scan.Next();
        if status != ScanOk { return; }
        if row.id == id { return; }
      }
    }

    /** `storage_select_all_rows`. */
    method SelectAllRows() returns (status: TableStatus, rows: array?<Row>, count: uint64)
      requires Sized()
      ensures status in {TableOk, TableIoError} && (volume.reliable ==> status == TableOk)
      ensures status == TableOk && rowCount > 0 ==> rows != null && rows[..] == Decoded(Image(), rowCount)
      ensures status == TableOk ==> count == rowCount
    {
      hide SlotAt, TrueOffset, TrueSize, Deserialize, Decoded;
      rows, count := null, 0;
      if rowCount == 0 { return TableOk, null, 0; }
      var arr := new Row[rowCount];
      var scan := new RowScanner(this);
      var i: uint64 := 0;
      while i < rowCount
        invariant i == scan.nextRow <= rowCount == scan.rowCount && scan.table == this
        invariant fresh(arr) && fresh(scan)
        invariant arr[..i] == Decoded(Image(), rowCount)[..i]
      {
        var s, row, _ := scan.Next();
        if s == ScanEnd { break; }
        if s != ScanOk { return TableIoError, null, 0; }
        arr[i] := row;
        i := i + 1;
      }
      assert arr[..] == arr[..rowCount];
      return TableOk, arr, i;
    }
  }

  /** The page-aware iterator: `next` is the row number to read next. */
  class RowScanner {
    const table: Table
    const rowCount: uint64
    var nextRow: uint64

    /** `storage_scan_begin`. */
    constructor (table: Table)
      ensures this.table == table && nextRow == 0 && rowCount == table.rowCount
    {
      this.table, this.rowCount, this.nextRow := table, table.rowCount, 0;
    }

    /**
     `storage_scan_next`: rows come in row-number order, each with its own offset, then
     the end; a table whose header was accepted is never reported corrupt.
     */
    method Next() returns (status: ScanStatus, row: Row, offset: uint64)
      requires rowCount == table.rowCount && nextRow <= rowCount && table.Sized()
      modifies this`nextRow
      ensures status in {ScanOk, ScanEnd, ScanIoError} && (table.volume.reliable ==> status != ScanIoError)
      ensures status == ScanEnd <==> old(nextRow) == rowCount
      ensures status == ScanOk ==>
                && nextRow == old(nextRow) + 1
                && row == Decoded(table.Image(), rowCount)[old(nextRow)]
                && offset == TrueOffset(old(nextRow))
      ensures status != ScanOk ==> nextRow == old(nextRow)
    {
      hide SlotAt, TrueOffset, TrueSize, Deserialize, Decoded;
      row, offset := Row(0, Zeros(NAME_SIZE)), 0;
      if nextRow >= rowCount { return ScanEnd, row, offset; }
      SlotInside(nextRow, rowCount);
      var at := OffsetForRow(nextRow);
      if at.None? { return ScanCorrupt, row, offset; }
      var st;
      st, row := table.ReadRowAtOffset(at.value);
      if st == TableInvalidOffset || st == TableCorrupt { return ScanCorrupt, row, offset; }
      if st != TableOk { return ScanIoError, row, offset; }
      UniqueRow(at.value);
      offset := at.value;
      nextRow := nextRow + 1;
      return ScanOk, row, offset;
    }
  }
}
