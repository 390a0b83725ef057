/**
 The insert commit protocol and its rollback recovery as a state machine: one table, one
 handle, and every call that can change the disk as a step of its own, after which the
 machine may crash (src/storage.c: storage_insert_row, persist_insert_journal,
 recover_insert_journal, storage_open_table_mode).
 */
module Protocol {
  import opened Bytes
  import opened Layout
  import opened Journal
  import opened Disk

  // ----- the machine -----

  /** The calls of `storage_insert_row`, in order; the first five are the journal's. */
  datatype InsertStep =
    | MakeTemp | WriteTemp | SyncTemp | RenameTemp | SyncRename
    | WriteRow | SyncRow | WriteHeader | SyncHeader | UnlinkJournal | SyncUnlink

  /** The calls of `recover_insert_journal` once it has accepted a journal. */
  datatype RecoverStep = Restore | SyncRestore | Truncate | SyncTruncate | DropJournal | SyncDrop

  /** What the process is about to do. `Open` is a writable handle with its row count. */
  datatype Control =
    | Closed
    | Open(count: uint64)
    | Inserting(insertStep: InsertStep, count: uint64, slot: Slot)
    | Recovering(recoverStep: RecoverStep, count: uint64)

  /**
   The values the journal's directory entry has had since the directory was last
   synchronised; the last is what `open` finds, and a crash may bring back any of them.
   */
  type Entries = s: seq<Option<File>> | |s| > 0 witness [None]

  /** `acked` remembers each row number at which an insert returned TABLE_OK, with its slot. */
  datatype World = World(
    name: TableName,
    table: File,
    temp: Option<File>,
    entries: Entries,
    ctl: Control,
    acked: map<nat, Slot>)
  {
    function Journal(): Option<File> {
      entries[|entries| - 1]
    }
  }

  datatype Event =
    | BeginInsert(slot: Slot)
    | Succeed
    | Fail(written: nat)
    | OpenTable
    | CloseTable
    | SyncDirectory  // for the index file, which shares the directory
    | Crash(survivor: seq<byte>, entry: nat, journal: seq<byte>)

  /** The guard of `storage_insert_row`. */
  predicate CanInsert(count: uint64) {
    OffsetForRow(count).Some? && OffsetForRow(count).value <= LONG_MAX && CheckedAdd(count, 1).Some?
  }

  ghost predicate Enabled(w: World, e: Event) {
    match e
    case BeginInsert(_) => w.ctl.Open? && CanInsert(w.ctl.count)
    case Succeed =>
      w.ctl.Recovering?
      || (w.ctl.Inserting? && CanInsert(w.ctl.count)
          && (w.ctl.insertStep.WriteRow? ==> TrueOffset(w.ctl.count) + ROW_SIZE <= LONG_MAX))
    case Fail(written) =>
      w.ctl.Recovering?
      || (w.ctl.Inserting? && CanInsert(w.ctl.count)
          && (w.ctl.insertStep.WriteRow? ==> TrueOffset(w.ctl.count) + |Prefix(w.ctl.slot, written)| <= LONG_MAX))
    case OpenTable => w.ctl.Closed?
    case CloseTable => w.ctl.Open?
    case SyncDirectory => w.ctl.Open? || w.ctl.Closed?
    case Crash(survivor, entry, journal) =>
      && CrashImage(w.table, survivor)
      && entry < |w.entries|
      && (w.entries[entry].Some? ==> CrashImage(w.entries[entry].value, journal))
  }

  function TempFile(w: World): File {
    if w.temp.Some? then w.temp.value else File([[]])
  }

  function JournalBytes(w: World): seq<byte>
    requires w.ctl.Inserting? && CanInsert(w.ctl.count)
  {
    Encode(w.name, w.ctl.count, w.ctl.count + 1, TrueOffset(w.ctl.count), w.ctl.slot)
  }

  function WriteTable(f: File, offset: nat, bytes: seq<byte>): File {
    Changed(f, Patch(f.Now(), offset, bytes))
  }

  function NextInsertStep(s: InsertStep): InsertStep {
    match s
    case MakeTemp => WriteTemp
    case WriteTemp => SyncTemp
    case SyncTemp => RenameTemp
    case RenameTemp => SyncRename
    case SyncRename => WriteRow
    case WriteRow => SyncRow
    case SyncRow => WriteHeader
    case WriteHeader => SyncHeader
    case SyncHeader => UnlinkJournal
    case UnlinkJournal => SyncUnlink
    case SyncUnlink => MakeTemp
  }

  /** The pending call of an insert has returned success. */
  function InsertSucceeds(w: World): World
    requires w.ctl.Inserting? && CanInsert(w.ctl.count)
  {
    var Inserting(step, count, slot) := w.ctl;
    var n := w.(ctl := Inserting(NextInsertStep(step), count, slot));
    match step
    case MakeTemp => n.(temp := Some(File([[]])))
    case WriteTemp => n.(temp := Some(WriteTable(TempFile(w), 0, JournalBytes(w))))
    case SyncTemp => n.(temp := Some(Synced(TempFile(w))))
    case RenameTemp => n.(temp := None, entries := w.entries + [Some(TempFile(w))])
    case SyncRename => n.(entries := [w.Journal()])
    case WriteRow => n.(table := WriteTable(w.table, TrueOffset(count), slot))
    case SyncRow => n.(table := Synced(w.table))
    case WriteHeader => n.(table := WriteTable(w.table, 0, Header(count + 1)))
    case SyncHeader => n.(table := Synced(w.table))
    case UnlinkJournal => n.(entries := w.entries + [None])
    case SyncUnlink =>
      w.(entries := [w.Journal()], ctl := Open(count + 1), acked := w.acked[count := slot])
  }

  function Prefix(bytes: seq<byte>, n: nat): (r: seq<byte>)
    ensures |r| <= |bytes| && forall i :: 0 <= i < |r| ==> r[i] == bytes[i]
  {
    if n <= |bytes| then bytes[..n] else bytes
  }

  /** The pending call of an insert fails, a write possibly after some of its bytes. */
  function InsertFails(w: World, written: nat): World
    requires w.ctl.Inserting? && CanInsert(w.ctl.count)
  {
    var Inserting(step, count, slot) := w.ctl;
    var n := w.(temp := None, ctl := Open(count));
    match step
    case WriteRow => n.(table := WriteTable(w.table, TrueOffset(count), Prefix(slot, written)))
    case WriteHeader => n.(table := WriteTable(w.table, 0, Prefix(Header(count + 1), written)))
    case _ => n
  }

  /** How a writable open ends once no journal is left: the header decides. */
  function Opened(w: World): World {
    match ReadHeader(w.table.Now())
    case Good(count) => w.(ctl := Open(count))
    case Bad(_) => w.(ctl := Closed)
  }

  function RecoverSucceeds(w: World): World
    requires w.ctl.Recovering?
  {
    var Recovering(step, count) := w.ctl;
    match step
    case Restore =>
      w.(table := WriteTable(w.table, 0, Header(count)), ctl := Recovering(SyncRestore, count))
    case SyncRestore => w.(table := Synced(w.table), ctl := Recovering(Truncate, count))
    case Truncate =>
      w.(table := Changed(w.table, Resize(w.table.Now(), TrueSize(count))),
         ctl := Recovering(SyncTruncate, count))
    case SyncTruncate => w.(table := Synced(w.table), ctl := Recovering(DropJournal, count))
    case DropJournal => w.(entries := w.entries + [None], ctl := Recovering(SyncDrop, count))
    case SyncDrop => Opened(w.(entries := [w.Journal()]))
  }

  function RecoverFails(w: World, written: nat): World
    requires w.ctl.Recovering?
  {
    if w.ctl.recoverStep.Restore? then
      w.(table := WriteTable(w.table, 0, Prefix(Header(w.ctl.count), written)), ctl := Closed)
    else
      w.(ctl := Closed)
  }

  /** A writable open: start recovery when a journal is there and makes sense. */
  function StartOpen(w: World): World {
    match w.Journal()
    case None => Opened(w)
    case Some(f) =>
      match Decode(f.Now(), w.name)
      case None => w.(ctl := Closed)
      case Some(count) => w.(ctl := Recovering(Restore, count))
  }

  ghost function Next(w: World, e: Event): World
    requires Enabled(w, e)
  {
    match e
    case BeginInsert(slot) => w.(ctl := Inserting(MakeTemp, w.ctl.count, slot))
    case Succeed => if w.ctl.Inserting? then InsertSucceeds(w) else RecoverSucceeds(w)
    case Fail(written) => if w.ctl.Inserting? then InsertFails(w, written) else RecoverFails(w, written)
    case OpenTable => StartOpen(w)
    case CloseTable => w.(ctl := Closed)
    case SyncDirectory => w.(entries := [w.Journal()])
    case Crash(survivor, entry, journal) =>
      w.(table := File([survivor]), temp := None,
         entries := [if w.entries[entry].Some? then Some(File([journal])) else None],
         ctl := Closed)
  }

  // ----- runs -----

  ghost predicate Runs(w: World, es: seq<Event>, w': World)
    decreases |es|
  {
    if es == [] then w' == w
    else Enabled(w, es[0]) && Runs(Next(w, es[0]), es[1..], w')
  }

  /**
   The handle is out of date in a way that matters: its last insert failed while
   synchronising the removal of its journal, so the header already counts one row more
   than the handle does, and going back to the handle's count carries out of the lowest
   byte of the counter.
   */
  ghost predicate Hazard(w: World) {
    && w.ctl.Open?
    && w.Journal().None?
    && w.ctl.count + 1 <= U64_MAX
    && HeaderHas(w.table.Now(), w.ctl.count + 1)
    && w.ctl.count % 256 == 255
  }

  /** No insert of the run starts on such a handle. */
  ghost predicate Careful(w: World, es: seq<Event>)
    decreases |es|
  {
    es == [] || (Enabled(w, es[0]) ==>
                   && (es[0].BeginInsert? ==> !Hazard(w))
                   && Careful(Next(w, es[0]), es[1..]))
  }

  /** A synchronised table holding these rows, with no journal that could come back. */
  ghost predicate Settled(w: World, rows: seq<Slot>) {
    && |rows| <= U64_MAX
    && |w.table.images| == 1
    && Holds(w.table.Now(), rows)
    && HeaderHas(w.table.Now(), |rows|)
    && |w.table.Now()| <= LONG_MAX
    && w.entries == [None]
  }

  /** A run starts on a closed, settled table, with all its rows counted as acknowledged. */
  ghost predicate Initial(w: World, rows: seq<Slot>) {
    Settled(w, rows) && w.ctl.Closed? && w.acked == (map k: nat | k < |rows| :: rows[k])
  }

  // ----- the invariant -----

  /**
   What the disk guarantees. `rows` are in the file whatever happens next; a crash leads
   back to at least the first `lo` of them; no journal that a crash can bring back asks
   for more than `top` rows.
   */
  datatype Ledger = Ledger(rows: seq<Slot>, lo: nat, top: nat)

  ghost predicate JournalOf(e: Option<File>, name: TableName, count: nat) {
    e.Some? && |e.value.images| == 1 && Decode(e.value.Now(), name) == Some(count)
  }

  ghost predicate EntryFits(e: Option<File>, name: TableName, lo: nat, top: nat) {
    e.Some? ==> exists count :: lo <= count <= top && JournalOf(e, name, count)
  }

  /** If the journal's absence can come back, any torn mix of headers must be acceptable. */
  ghost predicate HeadersFit(w: World, a: Ledger)
    requires a.lo <= a.top <= |a.rows| <= U64_MAX
  {
    None in w.entries && w.Journal().Some? ==>
      || AllHeader(w.table, a.top)
      || (|a.rows| == a.lo + 1 && a.lo % 256 != 255 && EitherHeader(w.table, a.lo))
  }

  /** While there is no journal the table is synchronised and its header counts `count` rows. */
  ghost predicate Resting(w: World, count: nat) {
    count <= U64_MAX && |w.table.images| == 1 && HeaderHas(w.table.Now(), count)
  }

  ghost predicate DiskFits(w: World, a: Ledger) {
    && a.lo <= a.top <= |a.rows| <= a.lo + 1
    && |a.rows| <= U64_MAX
    && AllHold(w.table, a.rows)
    && (forall m :: m in w.table.images ==> |m| <= LONG_MAX)
    && (forall e :: e in w.entries ==> EntryFits(e, w.name, a.lo, a.top))
    && (w.Journal().Some? ==> JournalOf(w.Journal(), w.name, a.top))
    && (w.Journal().None? ==> Resting(w, a.top) || Resting(w, |a.rows|))
    && HeadersFit(w, a)
    && forall k :: k in w.acked ==> k < a.lo && a.rows[k] == w.acked[k]
  }

  ghost predicate Lone(w: World, a: Ledger) {
    |w.entries| == 1 && w.Journal().Some? && a.lo == a.top
  }

  predicate BeforeRename(s: InsertStep) {
    s.MakeTemp? || s.WriteTemp? || s.SyncTemp? || s.RenameTemp?
  }

  ghost predicate InsertFits(w: World, a: Ledger)
    requires w.ctl.Inserting?
  {
    var Inserting(step, count, slot) := w.ctl;
    && count == a.top && CanInsert(count)
    && (BeforeRename(step) && w.Journal().None? ==>
          Resting(w, a.top) || a.top % 256 != 255)
    && match step
       case MakeTemp => true
       case WriteTemp => w.temp == Some(File([[]]))
       case SyncTemp => w.temp.Some? && w.temp.value.Now() == JournalBytes(w)
       case RenameTemp => w.temp == Some(File([JournalBytes(w)]))
       case SyncRename => w.Journal().Some?
       case WriteRow => Lone(w, a) && |a.rows| == count
       case SyncRow => Lone(w, a) && |a.rows| == count
                       && SlotAt(w.table.Now(), count) == slot && |w.table.Now()| >= TrueSize(count + 1)
       case WriteHeader => Lone(w, a) && |a.rows| == count + 1 && a.rows[count] == slot
                           && |w.table.images| == 1
       case SyncHeader => Lone(w, a) && |a.rows| == count + 1 && a.rows[count] == slot
                          && HeaderHas(w.table.Now(), count + 1)
       case UnlinkJournal => Lone(w, a) && |a.rows| == count + 1 && a.rows[count] == slot
                             && Resting(w, count + 1)
       case SyncUnlink => w.Journal().None? && |a.rows| == count + 1 && a.rows[count] == slot
                          && Resting(w, count + 1)
  }

  /** Nothing is left in the file behind its rows. */
  predicate CutTo(w: World, count: nat) {
    |w.table.Now()| == TrueSize(count)
  }

  ghost predicate RecoverFits(w: World, a: Ledger)
    requires w.ctl.Recovering?
  {
    var Recovering(step, count) := w.ctl;
    && count == a.top
    && match step
       case Restore => w.Journal().Some?
       case SyncRestore => w.Journal().Some? && HeaderHas(w.table.Now(), count)
       case Truncate => w.Journal().Some? && |a.rows| == count && Resting(w, count)
       case SyncTruncate => w.Journal().Some? && |a.rows| == count && AllHeader(w.table, count) && CutTo(w, count)
       case DropJournal => w.Journal().Some? && |a.rows| == count && Resting(w, count) && CutTo(w, count)
       case SyncDrop => w.Journal().None? && |a.rows| == count && Resting(w, count) && CutTo(w, count)
  }

  ghost predicate Inv(w: World, a: Ledger) {
    && DiskFits(w, a)
    && match w.ctl
       case Closed => w.Journal().None? ==> Resting(w, a.top)
       case Open(count) => count == a.top
       case Inserting(_, _, _) => InsertFits(w, a)
       case Recovering(_, _) => RecoverFits(w, a)
  }

  /** Nothing guaranteed is given up, and nothing appears but the row being inserted. */
  ghost predicate Grows(w: World, a: Ledger, a': Ledger) {
    && a.lo <= a'.lo
    && a.lo <= |a.rows| && a.lo <= |a'.rows| && a'.rows[..a.lo] == a.rows[..a.lo]
    && (a'.rows <= a.rows
        || (w.ctl.Inserting? && w.ctl.count <= |a.rows|
            && a'.rows == a.rows[..w.ctl.count] + [w.ctl.slot]))
  }

  /** How the rows in the file change: one is added when it is synchronised, one may go when a journal is in force. */
  ghost predicate RowsMove(w: World, e: Event, a: Ledger, a': Ledger) {
    if e.Succeed? && w.ctl.Inserting? && w.ctl.insertStep.SyncRow? then a'.rows == a.rows + [w.ctl.slot]
    else if e.Succeed? && ((w.ctl.Inserting? && w.ctl.insertStep.SyncRename?)
                           || (w.ctl.Recovering? && w.ctl.recoverStep.SyncRestore?)) then
      w.ctl.count <= |a.rows| && a'.rows == a.rows[..w.ctl.count]
    else a'.rows == a.rows
  }

  lemma HoldFewer(f: File, rows: seq<Slot>, n: nat)
    requires AllHold(f, rows) && n <= |rows|
    ensures AllHold(f, rows[..n])
  {
    forall m | m in f.images ensures Holds(m, rows[..n]) { HoldsPrefix(m, rows, n); }
  }

  // ----- each step keeps the invariant -----

  lemma TempStepKeeps(w: World, a: Ledger)
    requires Inv(w, a) && w.ctl.Inserting? && BeforeRename(w.ctl.insertStep)
    ensures Inv(InsertSucceeds(w), a)
  {
    hide Encode, Header, Decode, Patch, Resize, SlotAt, TrueOffset, TrueSize, OffsetForRow, HeaderHas, Holds;
    var w' := InsertSucceeds(w);
    var Inserting(step, count, slot) := w.ctl;
    match step
    case WriteTemp =>
      PatchEmpty(JournalBytes(w));
    case RenameTemp =>
      SizeBeforeNextRow(count);
      DecodeEncode(w.name, count, slot);
      assert JournalOf(w'.Journal(), w.name, count);
      forall e | e in w'.entries ensures EntryFits(e, w.name, a.lo, a.top) { }
    case _ =>
  }

  lemma SyncRenameKeeps(w: World, a: Ledger) returns (a': Ledger)
    requires Inv(w, a) && w.ctl.Inserting? && w.ctl.insertStep.SyncRename?
    ensures Inv(InsertSucceeds(w), a') && Grows(w, a, a')
    ensures w.ctl.count <= |a.rows| && a'.rows == a.rows[..w.ctl.count]
  {
    hide Encode, Header, Decode, Patch, Resize, SlotAt, TrueOffset, TrueSize, OffsetForRow, HeaderHas, Holds;
    var count := w.ctl.count;
    a' := Ledger(a.rows[..count], count, count);
    HoldFewer(w.table, a.rows, count);
  }

  lemma WriteRowKeeps(w: World, a: Ledger)
    requires Inv(w, a) && Enabled(w, Succeed) && w.ctl.Inserting? && w.ctl.insertStep.WriteRow?
    ensures Inv(InsertSucceeds(w), a)
  {
    hide Encode, Header, Decode, Patch, Resize, SlotAt, TrueOffset, TrueSize, OffsetForRow, HeaderHas;
    assert w.table.Now() in w.table.images;
    PatchRowKeeps(w.table.Now(), a.rows, w.ctl.count, w.ctl.slot);
    PatchRowWrites(w.table.Now(), w.ctl.count, w.ctl.slot);
  }

  lemma WriteHeaderKeeps(w: World, a: Ledger)
    requires Inv(w, a) && Enabled(w, Succeed) && w.ctl.Inserting?
    requires w.ctl.insertStep.WriteHeader? || w.ctl.insertStep.SyncHeader?
    ensures Inv(InsertSucceeds(w), a)
  {
    hide Encode, Header, Decode, Patch, Resize, SlotAt, TrueOffset, TrueSize, OffsetForRow, HeaderHas;
    assert w.table.Now() in w.table.images;
    if w.ctl.insertStep.WriteHeader? {
      PatchHeaderKeeps(w.table.Now(), a.rows, Header(w.ctl.count + 1));
      PatchHeaderWrites(w.table.Now(), w.ctl.count + 1);
    }
  }

  lemma SyncRowKeeps(w: World, a: Ledger) returns (a': Ledger)
    requires Inv(w, a) && w.ctl.Inserting? && w.ctl.insertStep.SyncRow?
    ensures Inv(InsertSucceeds(w), a') && Grows(w, a, a') && a'.rows == a.rows + [w.ctl.slot]
  {
    hide Encode, Header, Decode, Patch, Resize, SlotAt, TrueOffset, TrueSize, OffsetForRow, HeaderHas;
    assert w.table.Now() in w.table.images;
    a' := Ledger(a.rows + [w.ctl.slot], w.ctl.count, w.ctl.count);
    assert Holds(w.table.Now(), a'.rows);
  }

  lemma UnlinkStepKeeps(w: World, a: Ledger) returns (a': Ledger)
    requires Inv(w, a) && w.ctl.Inserting? && (w.ctl.insertStep.UnlinkJournal? || w.ctl.insertStep.SyncUnlink?)
    ensures Inv(InsertSucceeds(w), a') && Grows(w, a, a')
    ensures a'.rows == a.rows && (w.ctl.insertStep.SyncUnlink? ==> a' == Ledger(a.rows, |a.rows|, |a.rows|))
  {
    hide Encode, Header, Decode, Patch, Resize, SlotAt, TrueOffset, TrueSize, OffsetForRow;
    a' := if w.ctl.insertStep.UnlinkJournal? then a else Ledger(a.rows, |a.rows|, |a.rows|);
  }

  lemma InsertFailKeeps(w: World, a: Ledger, written: nat)
    requires Inv(w, a) && w.ctl.Inserting? && Enabled(w, Fail(written))
    ensures Inv(InsertFails(w, written), a)
  {
    hide Encode, Header, Decode, Patch, Resize, SlotAt, TrueOffset, TrueSize, OffsetForRow;
    var Inserting(step, count, slot) := w.ctl;
    assert w.table.Now() in w.table.images;
    match step
    case WriteRow => PatchRowKeeps(w.table.Now(), a.rows, count, Prefix(slot, written));
    case WriteHeader => PatchHeaderKeeps(w.table.Now(), a.rows, Prefix(Header(count + 1), written));
    case _ =>
  }

  /** Writing some first bytes of a header over an acceptable one leaves an acceptable one. */
  lemma PartialHeader(m: seq<byte>, from: uint64, to: uint64, written: nat)
    requires HeaderHas(m, from)
    requires from == to || (to + 1 == from && to % 256 != 255) || (from + 1 == to && from % 256 != 255)
    ensures var r := Patch(m, 0, Prefix(Header(to), written));
            HeaderHas(r, from) || HeaderHas(r, to)
  {
    hide Header, Patch;
    var r := Patch(m, 0, Prefix(Header(to), written));
    var n := if from < to then from else to;
    var c := if |Prefix(Header(to), written)| <= 24 then from else to;
    forall i | 0 <= i < HEADER_SIZE ensures At(r, i) == Header(c)[i] {
      if i != 24 && from != to { NeighbourHeaders(n, i); }
    }
    assert HeaderHas(r, c);
  }

  lemma RestoreKeeps(w: World, a: Ledger)
    requires Inv(w, a) && w.ctl.Recovering? && w.ctl.recoverStep.Restore?
    ensures Inv(RecoverSucceeds(w), a)
  {
    hide Encode, Header, Decode, Patch, Resize, SlotAt, TrueOffset, TrueSize, OffsetForRow;
    var m := w.table.Now();
    assert m in w.table.images;
    PatchHeaderKeeps(m, a.rows, Header(w.ctl.count));
    PatchHeaderWrites(m, w.ctl.count);
  }

  lemma RestoreFailKeeps(w: World, a: Ledger, written: nat)
    requires Inv(w, a) && w.ctl.Recovering? && w.ctl.recoverStep.Restore?
    ensures Inv(RecoverFails(w, written), a)
  {
    hide Encode, Header, Decode, Patch, Resize, SlotAt, TrueOffset, TrueSize, OffsetForRow, HeaderHas;
    var m := w.table.Now();
    assert m in w.table.images;
    PatchHeaderKeeps(m, a.rows, Prefix(Header(w.ctl.count), written));
    if None in w.entries {
      if AllHeader(w.table, a.top) {
        PartialHeader(m, a.top, a.top, written);
      } else {
        PartialHeader(m, if HeaderHas(m, a.lo) then a.lo else a.lo + 1, a.top, written);
      }
    }
  }

  lemma TruncateKeeps(w: World, a: Ledger)
    requires Inv(w, a) && w.ctl.Recovering? && w.ctl.recoverStep.Truncate?
    ensures Inv(RecoverSucceeds(w), a)
  {
    hide Encode, Header, Decode, Patch, Resize, SlotAt, TrueOffset, TrueSize, OffsetForRow;
    var count, m := w.ctl.count, w.table.Now();
    assert m in w.table.images;
    SizeBeforeNextRow(count);
    ResizeKeeps(m, a.rows);
    ResizeHeader(m, count, TrueSize(count));
  }

  lemma RecoverStepKeeps(w: World, a: Ledger) returns (a': Ledger)
    requires Inv(w, a) && w.ctl.Recovering? && !w.ctl.recoverStep.Restore?
    ensures Inv(RecoverSucceeds(w), a') && Grows(w, a, a')
    ensures w.ctl.recoverStep.SyncDrop? ==>
              && RecoverSucceeds(w).ctl.Open? && a' == Ledger(a.rows, |a.rows|, |a.rows|)
              && CutTo(RecoverSucceeds(w), w.ctl.count)
    ensures RowsMove(w, Succeed, a, a')
  {
    hide Encode, Header, Decode, Patch, Resize, SlotAt, TrueOffset, TrueSize, OffsetForRow, HeaderHas, ReadHeader;
    var Recovering(step, count) := w.ctl;
    assert w.table.Now() in w.table.images;
    a' := a;
    match step
    case SyncRestore =>
      a' := Ledger(a.rows[..count], a.lo, count);
      HoldFewer(w.table, a.rows, count);
      assert AllHeader(Synced(w.table), count);
    case Truncate => TruncateKeeps(w, a);
    case SyncTruncate =>
    case DropJournal =>
      forall e | e in w.entries + [None] ensures EntryFits(e, w.name, a.lo, a.top) { }
    case SyncDrop =>
      a' := Ledger(a.rows, |a.rows|, |a.rows|);
      ReadBackHeader(w.table.Now(), count);
  }

  lemma RecoverFailKeeps(w: World, a: Ledger, written: nat)
    requires Inv(w, a) && w.ctl.Recovering?
    ensures Inv(RecoverFails(w, written), a)
  {
    hide Encode, Header, Decode, Patch, Resize, SlotAt, TrueOffset, TrueSize, OffsetForRow;
    if w.ctl.recoverStep.Restore? { RestoreFailKeeps(w, a, written); }
  }

  lemma OpenKeeps(w: World, a: Ledger)
    requires Inv(w, a) && w.ctl.Closed?
    ensures Inv(StartOpen(w), a) && !StartOpen(w).ctl.Closed?
  {
    hide Encode, Header, Decode, Patch, Resize, SlotAt, TrueOffset, TrueSize, OffsetForRow, ReadHeader;
    var m := w.table.Now();
    assert m in w.table.images;
    if w.Journal().None? {
      SizesIncrease(a.top, |a.rows|);
      ReadBackHeader(m, a.top);
    }
  }

  lemma CloseKeeps(w: World, a: Ledger) returns (a': Ledger)
    requires Inv(w, a) && w.ctl.Open?
    ensures Inv(w.(ctl := Closed), a') && Grows(w, a, a') && a'.rows == a.rows
  {
    hide Encode, Header, Decode, Patch, Resize, SlotAt, TrueOffset, TrueSize, OffsetForRow, HeaderHas;
    a' := a;
    if w.Journal().None? && !Resting(w, a.top) {
      a' := a.(top := |a.rows|);
      forall e | e in w.entries ensures EntryFits(e, w.name, a'.lo, a'.top) {
        assert EntryFits(e, w.name, a.lo, a.top);
      }
    }
  }

  lemma SyncDirectoryKeeps(w: World, a: Ledger)
    requires Inv(w, a) && (w.ctl.Open? || w.ctl.Closed?)
    ensures Inv(w.(entries := [w.Journal()]), a)
  {
    hide Encode, Header, Decode, Patch, Resize, SlotAt, TrueOffset, TrueSize, OffsetForRow, HeaderHas;
  }

  lemma BeginKeeps(w: World, a: Ledger, slot: Slot)
    requires Inv(w, a) && w.ctl.Open? && CanInsert(w.ctl.count) && !Hazard(w)
    ensures Inv(w.(ctl := Inserting(MakeTemp, w.ctl.count, slot)), a)
  {
    hide Encode, Header, Decode, Patch, Resize, SlotAt, TrueOffset, TrueSize, OffsetForRow, HeaderHas;
  }

  lemma CrashKeeps(w: World, a: Ledger, e: Event) returns (a': Ledger)
    requires Inv(w, a) && e.Crash? && Enabled(w, e)
    ensures Inv(Next(w, e), a') && Grows(w, a, a') && a'.rows == a.rows
  {
    hide Encode, Header, Decode, Patch, Resize, SlotAt, TrueOffset, TrueSize, OffsetForRow, HeaderHas;
    var entry := w.entries[e.entry];
    var w' := Next(w, e);
    CrashKeepsRows(w.table, e.survivor, a.rows);
    if entry.Some? {
      assert EntryFits(entry, w.name, a.lo, a.top);
      var count :| a.lo <= count <= a.top && JournalOf(entry, w.name, count);
      CleanCrash(entry.value, e.journal);
      a' := a.(top := count);
      assert JournalOf(w'.Journal(), w.name, count);
    } else {
      var count := HeaderAfterCrash(w, a, e.survivor);
      a' := a.(top := count);
    }
  }

  /** A synchronised file survives a crash unchanged. */
  lemma CleanCrash(f: File, t: seq<byte>)
    requires |f.images| == 1 && CrashImage(f, t)
    ensures t == f.Now()
  {
    forall i | 0 <= i < |t| ensures t[i] == f.Now()[i] {
      CrashAgrees(f, t, i, f.Now()[i]);
    }
  }

  lemma HeaderAfterCrash(w: World, a: Ledger, t: seq<byte>) returns (count: nat)
    requires DiskFits(w, a) && None in w.entries && CrashImage(w.table, t)
    ensures a.lo <= count <= |a.rows| && HeaderHas(t, count)
  {
    hide Encode, Header, Decode, SlotAt, TrueOffset, TrueSize, OffsetForRow, HeaderHas;
    if w.Journal().None? {
      CleanCrash(w.table, t);
      count := if Resting(w, a.top) then a.top else |a.rows|;
    } else if AllHeader(w.table, a.top) {
      CrashKeepsHeader(w.table, t, a.top);
      count := a.top;
    } else {
      CrashMixesHeaders(w.table, t, a.lo);
      count := if HeaderHas(t, a.lo) then a.lo else a.lo + 1;
    }
  }

  lemma StepKeeps(w: World, a: Ledger, e: Event) returns (a': Ledger)
    requires Inv(w, a) && Enabled(w, e) && (e.BeginInsert? ==> !Hazard(w))
    ensures Inv(Next(w, e), a') && Grows(w, a, a') && RowsMove(w, e, a, a')
  {
    hide Inv, InsertSucceeds, InsertFails, RecoverSucceeds, RecoverFails, StartOpen, CanInsert;
    a' := a;
    assert Grows(w, a, a) by { assert a.rows <= a.rows; LedgerShape(w, a); }
    match e
    case BeginInsert(slot) => BeginKeeps(w, a, slot);
    case Fail(written) =>
      if w.ctl.Inserting? { InsertFailKeeps(w, a, written); } else { RecoverFailKeeps(w, a, written); }
    case OpenTable => OpenKeeps(w, a);
    case CloseTable => a' := CloseKeeps(w, a);
    case SyncDirectory => SyncDirectoryKeeps(w, a);
    case Crash(_, _, _) => a' := CrashKeeps(w, a, e);
    case Succeed =>
      if w.ctl.Inserting? {
        match w.ctl.insertStep
        case SyncRename => a' := SyncRenameKeeps(w, a);
        case SyncRow => a' := SyncRowKeeps(w, a);
        case WriteRow => WriteRowKeeps(w, a);
        case WriteHeader => WriteHeaderKeeps(w, a);
        case SyncHeader => WriteHeaderKeeps(w, a);
        case UnlinkJournal => a' := UnlinkStepKeeps(w, a);
        case SyncUnlink => a' := UnlinkStepKeeps(w, a);
        case _ => TempStepKeeps(w, a);
      } else {
        if w.ctl.recoverStep.Restore? { RestoreKeeps(w, a); } else { a' := RecoverStepKeeps(w, a); }
      }
  }

  lemma LedgerShape(w: World, a: Ledger)
    requires Inv(w, a)
    ensures a.lo <= a.top <= |a.rows| <= a.lo + 1
  {
  }
}
