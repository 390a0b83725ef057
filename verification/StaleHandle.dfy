/**
 When a handle may be used for another insert after one on it has failed. The commit
 protocol keeps its promise for every handle except one kind, and for that kind it
 breaks it: see Protocol.Hazard.
 */
module StaleHandle {
  import opened Bytes
  import opened Layout
  import opened Journal
  import opened Disk
  import opened Protocol
  import opened CrashSafety

  /** No later open, after any errors and crashes, falls short of the rows guaranteed now. */
  ghost predicate NeverLoses(w: World, slot: Slot, a: Ledger) {
    forall es: seq<Event>, w': World ::
      NoInserts(es) && Runs(w, [BeginInsert(slot)] + es, w') && w'.ctl.Open?
      ==> Keeps(a, View(w'))
  }

  ghost predicate Keeps(a: Ledger, view: seq<Slot>) {
    a.lo <= |view| && a.lo <= |a.rows| && view[..a.lo] == a.rows[..a.lo]
  }

  lemma CarefulInsertNeverLoses(w: World, a: Ledger, slot: Slot, es: seq<Event>, w': World)
    requires Inv(w, a) && w.ctl.Open? && CanInsert(w.ctl.count) && !Hazard(w)
    requires NoInserts(es) && Runs(w, [BeginInsert(slot)] + es, w') && w'.ctl.Open?
    ensures Keeps(a, View(w'))
  {
    hide Inv, Hazard, Rows, View, Enabled, Next, ReadHeader, ReadOnlyView, Runs, Careful, Sourced, Inserted, InFlight;
    RunsHead(w, BeginInsert(slot), es, w');
    NoInsertsIsCareful(Next(w, BeginInsert(slot)), es);
    CarefulCons(w, BeginInsert(slot), es);
    var a' := RunKeeps(w, a, [BeginInsert(slot)] + es, w');
    ViewsAreHeld(w', a');
    LedgerShape(w', a');
    assert View(w')[..a.lo] == a'.rows[..a.lo];
  }

  lemma RunsHead(w: World, e: Event, es: seq<Event>, w': World)
    requires Runs(w, [e] + es, w')
    ensures Enabled(w, e)
  {
    hide Enabled, Next;
    assert ([e] + es)[0] == e;
  }

  lemma Extend(w: World, es: seq<Event>, m: World, e: Event, n: World)
    requires Runs(w, es, m) && Enabled(m, e) && n == Next(m, e)
    ensures Runs(w, es + [e], n)
  {
    hide Next, Enabled, Runs;
    RunsOne(m, e);
    RunsThen(w, es, m, [e], n);
  }

  function NewJournal(w: World, slot: Slot): File
    requires w.ctl.Open? && CanInsert(w.ctl.count)
  {
    File([Encode(w.name, w.ctl.count, w.ctl.count + 1, TrueOffset(w.ctl.count), slot)])
  }

  function Renamed(w: World, slot: Slot): World
    requires w.ctl.Open? && CanInsert(w.ctl.count)
  {
    w.(temp := None, entries := w.entries + [Some(NewJournal(w, slot))],
       ctl := Inserting(SyncRename, w.ctl.count, slot))
  }

  const UP_TO_RENAME: seq<Event> := [Succeed, Succeed, Succeed, Succeed]

  lemma ReachRenamed(w: World, slot: Slot)
    requires w.ctl.Open? && CanInsert(w.ctl.count)
    ensures Runs(w, [BeginInsert(slot)] + UP_TO_RENAME, Renamed(w, slot))
  {
    hide Encode, Patch, TrueOffset, Runs, Header, HeaderHas, ReadHeader, Decode, OffsetForRow;
    var count, bytes := w.ctl.count, NewJournal(w, slot).Now();
    PatchEmpty(bytes);
    var begun := w.(ctl := Inserting(MakeTemp, count, slot));
    var made := w.(temp := Some(File([[]])), ctl := Inserting(WriteTemp, count, slot));
    var written := w.(temp := Some(File([[], bytes])), ctl := Inserting(SyncTemp, count, slot));
    var synced := w.(temp := Some(File([bytes])), ctl := Inserting(RenameTemp, count, slot));
    assert Next(w, BeginInsert(slot)) == begun && Next(begun, Succeed) == made;
    assert Next(made, Succeed) == written by { assert [[]] + [bytes] == [[], bytes]; }
    assert Next(written, Succeed) == synced;
    assert Next(synced, Succeed) == Renamed(w, slot);
    hide InsertSucceeds, CanInsert, Next;
    var p := [BeginInsert(slot)];
    RunsOne(w, BeginInsert(slot));
    Extend(w, p, begun, Succeed, made);
    Extend(w, p + [Succeed], made, Succeed, written);
    Extend(w, p + [Succeed] + [Succeed], written, Succeed, synced);
    Extend(w, p + [Succeed] + [Succeed] + [Succeed], synced, Succeed, Renamed(w, slot));
    assert p + [Succeed] + [Succeed] + [Succeed] + [Succeed] == p + UP_TO_RENAME;
  }

  /** The journal's entry is not synchronised, the table is reopened, and recovery starts. */
  const REOPENED: seq<Event> := [Fail(0), CloseTable, OpenTable, Succeed]

  function Rewriting(w: World, slot: Slot): World
    requires w.ctl.Open? && CanInsert(w.ctl.count)
  {
    Renamed(w, slot).(table := WriteTable(w.table, 0, Header(w.ctl.count)),
                      ctl := Recovering(SyncRestore, w.ctl.count))
  }

  lemma ReachRewriting(w: World, slot: Slot)
    requires w.ctl.Open? && CanInsert(w.ctl.count)
    ensures Runs(Renamed(w, slot), REOPENED, Rewriting(w, slot))
  {
    hide Encode, Header, Patch, TrueOffset, Runs, Decode;
    var count, n := w.ctl.count, Renamed(w, slot);
    var failed := n.(ctl := Open(count));
    var closed := n.(ctl := Closed);
    var recovering := n.(ctl := Recovering(Restore, count));
    assert Next(n, Fail(0)) == failed && Next(failed, CloseTable) == closed;
    DecodeEncode(w.name, count, slot);
    assert closed.Journal() == Some(NewJournal(w, slot));
    assert StartOpen(closed) == recovering;
    assert Next(recovering, Succeed) == Rewriting(w, slot);
    hide StartOpen, RecoverSucceeds, CanInsert, Next;
    RunsOne(n, Fail(0));
    Extend(n, [Fail(0)], failed, CloseTable, closed);
    Extend(n, [Fail(0)] + [CloseTable], closed, OpenTable, recovering);
    Extend(n, [Fail(0)] + [CloseTable] + [OpenTable], recovering, Succeed, Rewriting(w, slot));
    assert [Fail(0)] + [CloseTable] + [OpenTable] + [Succeed] == REOPENED;
  }

  /**
   The crash that does the damage: the new journal's entry is lost, and of the header being
   rewritten every byte but the lowest of the row count reached the disk.
   */
  lemma TornHeader(w: World, slot: Slot)
    requires w.ctl.Open? && CanInsert(w.ctl.count) && Hazard(w)
    requires TrueSize(w.ctl.count + 1) <= |w.table.Now()| <= LONG_MAX
    ensures var t := Patch(w.table.Now(), 0, Header(w.ctl.count - 255));
            && CrashImage(Rewriting(w, slot).table, t)
            && ReadHeader(t) == Good(w.ctl.count - 255)
  {
    hide Header, TrueOffset, TrueSize, ReadHeader, Patch, CrashImage, HeaderHas, CanInsert;
    assert w.table.Now() in w.table.images;
    assert w.ctl.count >= 255 by { HazardCount(w); }
    TornRewrite(Rewriting(w, slot).table, w.table.Now(), w.ctl.count);
  }

  lemma TornRewrite(f: File, m: seq<byte>, count: uint64)
    requires 255 <= count && count % 256 == 255 && count + 1 <= U64_MAX
    requires m in f.images && HeaderHas(m, count + 1) && f.Now() == Patch(m, 0, Header(count))
    requires TrueSize(count + 1) <= |m| <= LONG_MAX
    ensures CrashImage(f, Patch(m, 0, Header(count - 255)))
    ensures ReadHeader(Patch(m, 0, Header(count - 255))) == Good(count - 255)
  {
    hide Header, TrueSize, ReadHeader, Patch, CrashImage;
    var t := Patch(m, 0, Header(count - 255));
    SizesIncrease(count - 255, count + 1);
    assert HeaderHas(f.Now(), count) && HeaderHas(t, count - 255) && f.Now() in f.images;
    TornBetween(f, f.Now(), m, count, t);
    ReadBackHeader(t, count - 255);
  }

  function Lost(w: World): World
    requires w.ctl.Open? && w.ctl.count >= 255
  {
    w.(table := File([Patch(w.table.Now(), 0, Header(w.ctl.count - 255))]), temp := None,
       entries := [None], ctl := Open(w.ctl.count - 255))
  }

  lemma HazardLosesRows(w: World, a: Ledger, slot: Slot)
    requires Inv(w, a) && w.ctl.Open? && CanInsert(w.ctl.count) && Hazard(w)
    ensures exists es :: NoInserts(es) && Runs(w, [BeginInsert(slot)] + es, Lost(w))
    ensures |View(Lost(w))| < a.lo
  {
    hide Inv, Encode, Header, Patch, TrueOffset, TrueSize, ReadHeader, Runs, CrashImage, HeaderHas, Rows;
    StaleLedger(w, a);
    TornHeader(w, slot);
    var n := Rewriting(w, slot);
    var t := Patch(w.table.Now(), 0, Header(w.ctl.count - 255));
    var crash := Crash(t, |w.entries| - 1, []);
    assert n.entries[|w.entries| - 1] == w.Journal() == None;
    var crashed := n.(table := File([t]), temp := None, entries := [None], ctl := Closed);
    assert Enabled(n, crash) && Next(n, crash) == crashed;
    ReachRenamed(w, slot);
    ReachRewriting(w, slot);
    var es := UP_TO_RENAME + REOPENED;
    assert [BeginInsert(slot)] + es == ([BeginInsert(slot)] + UP_TO_RENAME) + REOPENED;
    RunsThen(w, [BeginInsert(slot)] + UP_TO_RENAME, Renamed(w, slot), REOPENED, n);
    Extend(w, [BeginInsert(slot)] + es, n, crash, crashed);
    Extend(w, [BeginInsert(slot)] + es + [crash], crashed, OpenTable, Lost(w));
    var all := es + [crash, OpenTable];
    assert [BeginInsert(slot)] + es + [crash] + [OpenTable] == [BeginInsert(slot)] + all;
    assert NoInserts(all);
  }

  lemma StaleLedger(w: World, a: Ledger)
    requires Inv(w, a) && Hazard(w)
    ensures a.lo == w.ctl.count && TrueSize(w.ctl.count + 1) <= |w.table.Now()| <= LONG_MAX
  {
    hide TrueSize, HeaderHas, SlotAt;
    var m := w.table.Now();
    assert m in w.table.images;
    if Resting(w, a.top) { HeaderCountUnique(m, a.top, w.ctl.count + 1); }
    HeaderCountUnique(m, |a.rows|, w.ctl.count + 1);
  }

  /**
   Exactly when an insert may begin. On any handle a run can produce, no sequence of errors,
   reopenings and crashes can cost a guaranteed row if and only if the handle is not the
   hazardous kind: journal gone, header one row ahead of the handle, low byte at 255.
   */
  lemma SafeExactlyWithoutHazard(w: World, a: Ledger, slot: Slot)
    requires Inv(w, a) && w.ctl.Open? && CanInsert(w.ctl.count)
    ensures NeverLoses(w, slot, a) <==> !Hazard(w)
  {
    hide Inv, Hazard, Runs, Rows;
    if Hazard(w) {
      assert w.ctl.count >= 255 by { HazardCount(w); }
      HazardLosesRows(w, a, slot);
      var es :| NoInserts(es) && Runs(w, [BeginInsert(slot)] + es, Lost(w));
      assert !Keeps(a, View(Lost(w)));
    } else {
      forall es: seq<Event>, w': World |
        NoInserts(es) && Runs(w, [BeginInsert(slot)] + es, w') && w'.ctl.Open?
        ensures Keeps(a, View(w'))
      {
        CarefulInsertNeverLoses(w, a, slot, es, w');
      }
    }
  }

  lemma HazardCount(w: World)
    requires Hazard(w)
    ensures w.ctl.count >= 255
  {
  }

  function CallsBeforeLast(s: InsertStep): nat {
    match s
    case MakeTemp => 10
    case WriteTemp => 9
    case SyncTemp => 8
    case RenameTemp => 7
    case SyncRename => 6
    case WriteRow => 5
    case SyncRow => 4
    case WriteHeader => 3
    case SyncHeader => 2
    case UnlinkJournal => 1
    case SyncUnlink => 0
  }

  /** An insert whose calls succeed gets to each of its later calls. */
  lemma {:induction false} ReachCall(w: World, a: Ledger, left: nat, rest: nat) returns (w': World, a': Ledger)
    requires Inv(w, a) && w.ctl.Inserting? && left + rest == CallsBeforeLast(w.ctl.insertStep)
    requires TrueOffset(w.ctl.count) + ROW_SIZE <= LONG_MAX
    ensures Runs(w, Successes(left), w') && Inv(w', a')
    ensures w'.ctl.Inserting? && CallsBeforeLast(w'.ctl.insertStep) == rest
    ensures w'.ctl.count == w.ctl.count && w'.ctl.slot == w.ctl.slot && w'.name == w.name
    ensures w.ctl.count <= |a.rows| && w.ctl.count <= |a'.rows| && a'.rows[..w.ctl.count] == a.rows[..w.ctl.count]
    decreases left
  {
    hide Encode, Header, Patch, TrueOffset, Decode, DiskFits, HeaderHas, OffsetForRow, RowsMove;
    if left == 0 {
      w', a' := w, a;
      LedgerShape(w, a);
    } else {
      var b := StepKeeps(w, a, Succeed);
      LedgerShape(w, a); LedgerShape(Next(w, Succeed), b);
      assert b.rows[..w.ctl.count] == a.rows[..w.ctl.count];
      w', a' := ReachCall(Next(w, Succeed), b, left - 1, rest);
      assert Successes(left)[1..] == Successes(left - 1);
    }
  }

  lemma ReachLastCall(w: World, a: Ledger, left: nat) returns (w': World, a': Ledger)
    requires Inv(w, a) && w.ctl.Inserting? && left == CallsBeforeLast(w.ctl.insertStep)
    requires TrueOffset(w.ctl.count) + ROW_SIZE <= LONG_MAX
    ensures Runs(w, Successes(left), w') && Inv(w', a')
    ensures w'.ctl == Inserting(SyncUnlink, w.ctl.count, w.ctl.slot)
    ensures w.ctl.count <= |a.rows| && w.ctl.count <= |a'.rows| && a'.rows[..w.ctl.count] == a.rows[..w.ctl.count]
  {
    hide Inv, Runs, TrueOffset;
    w', a' := ReachCall(w, a, left, 0);
  }

  /** Acknowledgement is reachable: if every call of an insert succeeds, it returns OK. */
  lemma InsertCompletes(w: World, a: Ledger, slot: Slot) returns (w': World)
    requires Inv(w, a) && w.ctl.Open? && CanInsert(w.ctl.count) && !Hazard(w)
    requires TrueOffset(w.ctl.count) + ROW_SIZE <= LONG_MAX
    ensures Runs(w, [BeginInsert(slot)] + Successes(11), w')
    ensures w'.ctl == Open(w.ctl.count + 1) && View(w') == View(w) + [slot]
    ensures w.ctl.count in w'.acked && w'.acked[w.ctl.count] == slot
  {
    hide Encode, Header, Patch, TrueOffset, Decode, OffsetForRow, Runs, Inv, Hazard, HeaderHas, Rows;
    var count := w.ctl.count;
    var begun := w.(ctl := Inserting(MakeTemp, count, slot));
    BeginKeeps(w, a, slot);
    RunsOne(w, BeginInsert(slot));
    var last, b := ReachLastCall(begun, a, 10);
    RunsThen(w, [BeginInsert(slot)], begun, Successes(10), last);
    w' := InsertSucceeds(last);
    assert Enabled(last, Succeed) && Next(last, Succeed) == w';
    Extend(w, [BeginInsert(slot)] + Successes(10), last, Succeed, w');
    SuccessesPlusOne(10);
    assert [BeginInsert(slot)] + Successes(10) + [Succeed] == [BeginInsert(slot)] + Successes(11);
    CompletedView(last, b, w');
    ViewsAreHeld(w, a);
  }

  lemma LastCallOfInsert(last: World, b: Ledger)
    requires Inv(last, b) && last.ctl.Inserting? && last.ctl.insertStep.SyncUnlink? && CanInsert(last.ctl.count)
    ensures InsertSucceeds(last).ctl == Open(last.ctl.count + 1)
    ensures |b.rows| == last.ctl.count + 1 && b.rows[last.ctl.count] == last.ctl.slot
  {
    hide Encode, Header, TrueOffset, Decode, OffsetForRow, HeaderHas, DiskFits, SlotAt, ReadHeader;
  }

  lemma CompletedView(last: World, b: Ledger, n: World)
    requires Inv(last, b) && last.ctl.Inserting? && last.ctl.insertStep.SyncUnlink? && CanInsert(last.ctl.count)
    requires n == InsertSucceeds(last) && n.ctl.Open? && last.ctl.count <= |b.rows|
    ensures View(n) == b.rows[..last.ctl.count] + [last.ctl.slot]
  {
    hide Inv, InsertSucceeds, View, ReadOnlyView, Grows, ReadHeader;
    LastCallOfInsert(last, b);
    var a' := UnlinkStepKeeps(last, b);
    ViewsAreHeld(n, a');
    assert b.rows == b.rows[..last.ctl.count] + [last.ctl.slot];
  }

  lemma {:induction false} SuccessesPlusOne(n: nat)
    ensures Successes(n) + [Succeed] == Successes(n + 1)
  {
    if n > 0 {
      SuccessesPlusOne(n - 1);
      assert Successes(n) + [Succeed] == [Succeed] + (Successes(n - 1) + [Succeed]);
    }
  }

  lemma LastCallFails(last: World, b: Ledger)
    requires Inv(last, b) && last.ctl.Inserting? && last.ctl.insertStep.SyncUnlink? && CanInsert(last.ctl.count)
    ensures var n := InsertFails(last, 0);
            n.ctl == Open(last.ctl.count) && n.Journal().None? && HeaderHas(n.table.Now(), last.ctl.count + 1)
  {
    hide Encode, Header, TrueOffset, Decode, OffsetForRow, HeaderHas, DiskFits;
  }

  lemma CarefulCons(w: World, e: Event, es: seq<Event>)
    requires Enabled(w, e) && (e.BeginInsert? ==> !Hazard(w)) && Careful(Next(w, e), es)
    ensures Careful(w, [e] + es)
  {
    hide Enabled, Next, Hazard;
    assert ([e] + es)[1..] == es;
  }

  /**
   The hazard is real: from any settled table whose row count ends in 255, an insert whose
   very last call fails leaves a hazardous handle.
   */
  lemma HazardIsReachable(w: World, rows: seq<Slot>, slot: Slot) returns (es: seq<Event>, w': World)
    requires Initial(w, rows) && |rows| % 256 == 255 && TrueOffset(|rows|) + ROW_SIZE <= LONG_MAX
    requires |rows| + 1 <= U64_MAX
    ensures Runs(w, es, w') && Careful(w, es) && Hazard(w')
  {
    hide Encode, Header, TrueOffset, Decode, OffsetForRow, Runs, Inv, Careful, HeaderHas, ReadHeader;
    var a := Ledger(rows, |rows|, |rows|);
    InitialInv(w, rows);
    assert ReadHeader(w.table.Now()) == Good(|rows|) by { ReadBackHeader(w.table.Now(), |rows|); }
    var open := w.(ctl := Open(|rows|));
    assert Enabled(w, OpenTable) && Next(w, OpenTable) == open;
    OpenKeeps(w, a);
    FreshHandleIsSafe(open);
    var begun := open.(ctl := Inserting(MakeTemp, |rows|, slot));
    assert CanInsert(|rows|);
    BeginKeeps(open, a, slot);
    var last, b := ReachLastCall(begun, a, 10);
    w' := InsertFails(last, 0);
    RunsOne(w, OpenTable);
    Extend(w, [OpenTable], open, BeginInsert(slot), begun);
    RunsThen(w, [OpenTable] + [BeginInsert(slot)], begun, Successes(10), last);
    es := [OpenTable] + [BeginInsert(slot)] + Successes(10) + [Fail(0)];
    Extend(w, [OpenTable] + [BeginInsert(slot)] + Successes(10), last, Fail(0), w');
    assert Hazard(w') by { LastCallFails(last, b); }
    var rest := Successes(10) + [Fail(0)];
    assert NoInserts(rest);
    NoInsertsIsCareful(begun, rest);
    CarefulCons(open, BeginInsert(slot), rest);
    CarefulCons(w, OpenTable, [BeginInsert(slot)] + rest);
    assert es == [OpenTable] + ([BeginInsert(slot)] + rest);
  }

  /** A handle fresh from an open counts what the header counts, so it is never hazardous. */
  lemma FreshHandleIsSafe(w: World)
    requires w.ctl.Open? && ReadHeader(w.table.Now()) == Good(w.ctl.count)
    ensures !Hazard(w)
  {
    hide HeaderHas, ReadHeader;
    if Hazard(w) {
      ReadsOwnCount(w.table.Now(), w.ctl.count);
      HasOwnCount(w.table.Now(), w.ctl.count + 1);
    }
  }

  lemma ReadsOwnCount(m: seq<byte>, count: uint64)
    requires ReadHeader(m) == Good(count)
    ensures |m| >= HEADER_SIZE && GetU64(m[24..32]) == count
  {
    hide GetU64, GetU32, LogicalSize;
  }

  lemma HasOwnCount(m: seq<byte>, count: uint64)
    requires HeaderHas(m, count)
    ensures |m| >= HEADER_SIZE && m[24..32] == PutU64(count)
  {
    hide Header, PutU64;
    forall i | 0 <= i < 8 ensures m[24..32][i] == PutU64(count)[i] {
      HeaderCountByte(count, 24 + i);
      assert At(m, 24 + i) == Header(count)[24 + i];
    }
  }

  /** What a successful writable open ends with. */
  ghost predicate Fresh(w: World) {
    w.ctl.Open? && w.Journal().None? && ReadHeader(w.table.Now()) == Good(w.ctl.count)
  }

  /** Every insert of the run begins on such a handle. */
  ghost predicate FreshHandles(w: World, es: seq<Event>)
    decreases |es|
  {
    es == [] || (Enabled(w, es[0]) ==>
                   && (es[0].BeginInsert? ==> Fresh(w))
                   && FreshHandles(Next(w, es[0]), es[1..]))
  }

  /** So a program that reopens the table for every insert, as the executor does, is careful. */
  lemma {:induction false} FreshHandlesAreCareful(w: World, es: seq<Event>)
    requires FreshHandles(w, es)
    ensures Careful(w, es)
    decreases |es|
  {
    hide Next, ReadHeader, Hazard;
    if es != [] && Enabled(w, es[0]) {
      if es[0].BeginInsert? { FreshHandleIsSafe(w); }
      FreshHandlesAreCareful(Next(w, es[0]), es[1..]);
    }
  }
}
