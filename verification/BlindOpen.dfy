/**
 What a read-only open shows if its test for a journal fails and it goes on as if there were
 none: the rows the header counts, whatever an insert under way has made of the header.
 */
module BlindOpen {
  import opened Bytes
  import opened Layout
  import opened Journal
  import opened Disk
  import opened Protocol
  import opened CrashSafety
  import opened StaleHandle
  import opened Atomicity

  /** The rows a read-only open shows if it does not see the journal. */
  function BlindView(w: World): Option<seq<Slot>> {
    match ReadHeader(w.table.Now())
    case Good(count) => Some(Rows(w.table.Now(), count))
    case Bad(_) => None
  }

  /** There is room for the row, so that its insert can get as far as the header. */
  predicate Room(count: nat) {
    TrueOffset(count) + ROW_SIZE <= LONG_MAX
  }

  predicate UpToRow(s: InsertStep) {
    BeforeRename(s) || s.SyncRename? || s.WriteRow?
  }

  predicate UpToHeader(s: InsertStep) {
    UpToRow(s) || s.SyncRow? || s.WriteHeader?
  }

  /** Every content has the header of the old count, or else the new row is in the file. */
  ghost predicate HeaderFits(f: File, rows: seq<Slot>, handle: seq<Slot>, slot: Slot)
    requires |handle| <= U64_MAX
  {
    AllHeader(f, |handle|) || (rows == handle + [slot] && EitherHeader(f, |handle|))
  }

  /** No header but the two of the insert is in the file, and the second only once the row is. */
  ghost predicate TwoHeaders(w: World, rows: seq<Slot>, handle: seq<Slot>, slot: Slot) {
    && |handle| <= U64_MAX
    && (w.ctl.Inserting? ==>
          && w.ctl.count == |handle| && w.ctl.slot == slot
          && (UpToHeader(w.ctl.insertStep) ==> AllHeader(w.table, |handle|)))
    && HeaderFits(w.table, rows, handle, slot)
    && (!Room(|handle|) ==>
          && rows == handle && AllHeader(w.table, |handle|)
          && (w.ctl.Inserting? ==> UpToRow(w.ctl.insertStep)))
  }

  /** One insert of `slot` on top of `handle` is or was under way, and no other. */
  ghost predicate OnlyTwoHeaders(w: World, b: Ledger, handle: seq<Slot>, slot: Slot) {
    && |handle| + 1 <= U64_MAX && Inv(w, b) && |handle| <= b.lo
    && (b.rows == handle || b.rows == handle + [slot])
    && TwoHeaders(w, b.rows, handle, slot)
  }

  /** No crash or failure can mix the two headers into a third. */
  ghost predicate Unmixed(count: nat, e: Event) {
    count % 256 != 255 || !Room(count) || e.Succeed?
  }

  // ----- what each call does to the headers -----

  lemma RowWriteKeepsHeader(f: File, count: uint64, at: nat, bytes: seq<byte>)
    requires AllHeader(f, count)
    ensures AllHeader(WriteTable(f, TrueOffset(at), bytes), count)
  {
    hide Header, TrueOffset, HeaderHas, Patch;
    assert f.Now() in f.images;
    PatchRowHeader(f.Now(), count, at, bytes);
  }

  /** Any first part of the header of one of two neighbouring counts, over a header of either. */
  lemma HeaderWriteFits(f: File, count: uint64, to: uint64, written: nat)
    requires EitherHeader(f, count) && (to == count || to == count + 1)
    requires count % 256 != 255 || written >= HEADER_SIZE
    ensures EitherHeader(WriteTable(f, 0, Prefix(Header(to), written)), count)
  {
    hide HeaderHas, Patch;
    var m := f.Now();
    assert m in f.images;
    if written >= HEADER_SIZE {
      WholeHeader(m, to, written);
    } else {
      PartialHeader(m, if HeaderHas(m, count) then count else count + 1, to, written);
    }
  }

  lemma WholeHeader(m: seq<byte>, to: uint64, written: nat)
    requires written >= HEADER_SIZE
    ensures Prefix(Header(to), written) == Header(to) && HeaderHas(Patch(m, 0, Prefix(Header(to), written)), to)
  {
    hide Header, Patch, HeaderHas;
    PatchHeaderWrites(m, to);
  }

  lemma SameHeaderWrite(f: File, count: uint64, written: nat)
    requires AllHeader(f, count)
    ensures AllHeader(WriteTable(f, 0, Prefix(Header(count), written)), count)
  {
    hide HeaderHas, Patch;
    var m := f.Now();
    assert m in f.images;
    PartialHeader(m, count, count, written);
  }

  lemma CutKeepsHeaders(f: File, count: uint64, length: nat)
    requires length >= HEADER_SIZE
    ensures AllHeader(f, count) ==> AllHeader(Changed(f, Resize(f.Now(), length)), count)
    ensures EitherHeader(f, count) ==> EitherHeader(Changed(f, Resize(f.Now(), length)), count)
  {
    hide Resize, HeaderHas;
    assert f.Now() in f.images;
    CutHeader(f.Now(), count, length);
    if count + 1 <= U64_MAX { CutHeader(f.Now(), count + 1, length); }
  }

  lemma CutHeader(m: seq<byte>, count: uint64, length: nat)
    requires length >= HEADER_SIZE
    ensures HeaderHas(m, count) ==> HeaderHas(Resize(m, length), count)
  {
    hide Resize, Header;
  }

  lemma SyncKeepsHeaders(f: File, count: uint64)
    ensures AllHeader(f, count) ==> AllHeader(Synced(f), count)
    ensures EitherHeader(f, count) ==> EitherHeader(Synced(f), count)
  {
    hide HeaderHas;
    assert f.Now() in f.images;
  }

  lemma AllIsEither(f: File, count: uint64)
    requires AllHeader(f, count) && count + 1 <= U64_MAX
    ensures EitherHeader(f, count)
  {
    hide HeaderHas;
  }

  // ----- each event -----

  /** Where the ledger's rows stand during an insert or a recovery. */
  lemma LedgerAtStep(w: World, b: Ledger)
    requires Inv(w, b)
    ensures b.lo <= b.top <= |b.rows|
    ensures w.ctl.Inserting? && w.ctl.insertStep.SyncRow? ==> |b.rows| == w.ctl.count
    ensures w.ctl.Inserting? && !UpToRow(w.ctl.insertStep) && !w.ctl.insertStep.SyncRow? ==> |b.rows| == w.ctl.count + 1
    ensures w.ctl.Recovering? ==> w.ctl.count == b.top
    ensures w.ctl.Recovering? && w.ctl.recoverStep.SyncRestore? ==> HeaderHas(w.table.Now(), w.ctl.count)
  {
    hide DiskFits, HeaderHas, Decode, SlotAt, TrueSize;
    LedgerShape(w, b);
  }

  lemma InsertStepHeaders(w: World, b: Ledger, handle: seq<Slot>, slot: Slot, rows: seq<Slot>)
    requires OnlyTwoHeaders(w, b, handle, slot) && w.ctl.Inserting? && Enabled(w, Succeed)
    requires if w.ctl.insertStep.SyncRow? then rows == b.rows + [slot]
             else if w.ctl.insertStep.SyncRename? then rows == handle else rows == b.rows
    ensures TwoHeaders(InsertSucceeds(w), rows, handle, slot)
  {
    hide Inv, HeaderHas, Header, TrueOffset, Encode, OffsetForRow, Patch, AllHeader, EitherHeader;
    LedgerAtStep(w, b);
    var step, n := w.ctl.insertStep, |handle|;
    if step.WriteRow? {
      RowWriteKeepsHeader(w.table, n, n, slot);
    } else if step.WriteHeader? {
      AllIsEither(w.table, n);
      WholeHeader(w.table.Now(), n + 1, HEADER_SIZE);
      HeaderWriteFits(w.table, n, n + 1, HEADER_SIZE);
    } else {
      SyncKeepsHeaders(w.table, n);
    }
  }

  lemma InsertFailHeaders(w: World, b: Ledger, handle: seq<Slot>, slot: Slot, written: nat)
    requires OnlyTwoHeaders(w, b, handle, slot) && w.ctl.Inserting? && Enabled(w, Fail(written))
    requires Unmixed(|handle|, Fail(written))
    ensures TwoHeaders(InsertFails(w, written), b.rows, handle, slot)
  {
    hide Inv, HeaderHas, Header, TrueOffset, Encode, OffsetForRow, Patch, Prefix, AllHeader, EitherHeader;
    LedgerAtStep(w, b);
    var step, n := w.ctl.insertStep, |handle|;
    if step.WriteRow? {
      RowWriteKeepsHeader(w.table, n, n, Prefix(slot, written));
    } else if step.WriteHeader? {
      AllIsEither(w.table, n);
      HeaderWriteFits(w.table, n, n + 1, written);
    }
  }

  lemma RecoverStepHeaders(w: World, b: Ledger, handle: seq<Slot>, slot: Slot, rows: seq<Slot>)
    requires OnlyTwoHeaders(w, b, handle, slot) && w.ctl.Recovering?
    requires if w.ctl.recoverStep.SyncRestore? then w.ctl.count <= |b.rows| && rows == b.rows[..w.ctl.count]
             else rows == b.rows
    ensures TwoHeaders(RecoverSucceeds(w), rows, handle, slot)
  {
    hide Inv, HeaderHas, Header, TrueOffset, TrueSize, Patch, Resize, ReadHeader, AllHeader, EitherHeader;
    LedgerAtStep(w, b);
    var step, n := w.ctl.recoverStep, |handle|;
    if step.Restore? {
      RestoreHeaders(w, b, handle, slot);
    } else if step.Truncate? {
      SizeBeforeNextRow(w.ctl.count);
      CutKeepsHeaders(w.table, n, TrueSize(w.ctl.count));
    } else {
      SyncKeepsHeaders(w.table, n);
      if step.SyncRestore? {
        if w.ctl.count == n { OneHeader(w.table, n); } else { assert b.rows[..n + 1] == b.rows; }
      }
    }
  }

  lemma OneHeader(f: File, count: uint64)
    requires HeaderHas(f.Now(), count)
    ensures AllHeader(Synced(f), count)
  {
  }

  lemma RestoreHeaders(w: World, b: Ledger, handle: seq<Slot>, slot: Slot)
    requires OnlyTwoHeaders(w, b, handle, slot) && w.ctl.Recovering? && w.ctl.recoverStep.Restore?
    ensures TwoHeaders(RecoverSucceeds(w), b.rows, handle, slot)
  {
    hide Inv, HeaderHas, Header, TrueOffset, TrueSize, Patch, Resize, ReadHeader, AllHeader, EitherHeader;
    LedgerAtStep(w, b);
    var n := |handle|;
    WholeHeader(w.table.Now(), w.ctl.count, HEADER_SIZE);
    if AllHeader(w.table, n) {
      AllIsEither(w.table, n);
      SameHeaderWrite(w.table, n, HEADER_SIZE);
    }
    HeaderWriteFits(w.table, n, w.ctl.count, HEADER_SIZE);
  }

  lemma RecoverFailHeaders(w: World, b: Ledger, handle: seq<Slot>, slot: Slot, written: nat)
    requires OnlyTwoHeaders(w, b, handle, slot) && w.ctl.Recovering? && Unmixed(|handle|, Fail(written))
    ensures TwoHeaders(RecoverFails(w, written), b.rows, handle, slot)
  {
    hide Inv, HeaderHas, Header, TrueOffset, TrueSize, Patch, Prefix, AllHeader, EitherHeader;
    LedgerAtStep(w, b);
    var n := |handle|;
    if w.ctl.recoverStep.Restore? {
      if AllHeader(w.table, n) {
        AllIsEither(w.table, n);
        if w.ctl.count == n { SameHeaderWrite(w.table, n, written); }
      }
      if n % 256 != 255 { HeaderWriteFits(w.table, n, w.ctl.count, written); }
    }
  }

  lemma CrashHeaders(w: World, b: Ledger, handle: seq<Slot>, slot: Slot, e: Event)
    requires OnlyTwoHeaders(w, b, handle, slot) && e.Crash? && Enabled(w, e) && Unmixed(|handle|, e)
    ensures TwoHeaders(Next(w, e), b.rows, handle, slot)
  {
    hide Inv, HeaderHas, Header, TrueOffset, CrashImage;
    var n := |handle|;
    if AllHeader(w.table, n) {
      CrashKeepsHeader(w.table, e.survivor, n);
    } else {
      CrashMixesHeaders(w.table, e.survivor, n);
    }
  }

  /** Opening, closing and synchronising the directory leave the table file alone. */
  lemma QuietHeaders(w: World, rows: seq<Slot>, handle: seq<Slot>, slot: Slot, e: Event)
    requires TwoHeaders(w, rows, handle, slot) && Enabled(w, e)
    requires e.OpenTable? || e.CloseTable? || e.SyncDirectory?
    ensures TwoHeaders(Next(w, e), rows, handle, slot)
  {
    hide HeaderFits, ReadHeader, Decode, AllHeader, Room;
  }

  lemma TwoHeadersStep(w: World, b: Ledger, handle: seq<Slot>, slot: Slot, e: Event) returns (b': Ledger)
    requires OnlyTwoHeaders(w, b, handle, slot) && Enabled(w, e) && !e.BeginInsert? && Unmixed(|handle|, e)
    ensures OnlyTwoHeaders(Next(w, e), b', handle, slot)
  {
    hide Inv, HeaderFits, Hazard, Enabled, InsertSucceeds, InsertFails, RecoverSucceeds, RecoverFails, StartOpen, Room,
      AllHeader;
    b' := StepKeeps(w, b, e);
    LedgerAtStep(w, b);
    LedgerShape(Next(w, e), b');
    StepShape(w, e);
    match e
    case Succeed =>
      if w.ctl.Inserting? {
        assert w.ctl.insertStep.SyncRename? ==> b'.rows == handle;
        InsertStepHeaders(w, b, handle, slot, b'.rows);
      } else {
        RecoverStepHeaders(w, b, handle, slot, b'.rows);
      }
    case Fail(written) =>
      if w.ctl.Inserting? {
        InsertFailHeaders(w, b, handle, slot, written);
      } else {
        RecoverFailHeaders(w, b, handle, slot, written);
      }
    case Crash(_, _, _) => CrashHeaders(w, b, handle, slot, e);
    case _ => QuietHeaders(w, b.rows, handle, slot, e);
  }

  lemma StepShape(w: World, e: Event)
    requires Enabled(w, e)
    ensures e.Succeed? ==> w.ctl.Inserting? || w.ctl.Recovering?
    ensures e.Fail? ==> w.ctl.Inserting? || w.ctl.Recovering?
    ensures (e.Succeed? || e.Fail?) && w.ctl.Inserting? ==> CanInsert(w.ctl.count)
  {
    hide CanInsert, TrueOffset, CrashImage;
  }

  lemma {:induction false} TwoHeadersRun(w: World, b: Ledger, handle: seq<Slot>, slot: Slot, es: seq<Event>, w': World)
    returns (b': Ledger)
    requires OnlyTwoHeaders(w, b, handle, slot) && NoInserts(es) && Runs(w, es, w')
    requires forall e :: e in es ==> Unmixed(|handle|, e)
    ensures OnlyTwoHeaders(w', b', handle, slot)
    decreases |es|
  {
    hide OnlyTwoHeaders, Enabled, Next, Unmixed;
    if es == [] {
      b' := b;
    } else {
      assert es[0] in es;
      var c := TwoHeadersStep(w, b, handle, slot, es[0]);
      b' := TwoHeadersRun(Next(w, es[0]), c, handle, slot, es[1..], w');
    }
  }

  /** Either header is accepted, and the rows it counts are there. */
  lemma TwoHeadersShow(w: World, b: Ledger, handle: seq<Slot>, slot: Slot)
    requires OnlyTwoHeaders(w, b, handle, slot)
    ensures BlindView(w).Some? && OldOrNew(handle, slot, BlindView(w).value)
  {
    hide HeaderHas, Holds, TrueSize, ReadHeader, Rows, Room, Decode;
    var m, n := w.table.Now(), |handle|;
    assert m in w.table.images && Holds(m, b.rows) && |m| <= LONG_MAX;
    hide Inv, HeaderFits;
    HeldSize(m, b.rows);
    var count := TwoHeadersCount(w, b, handle, slot);
    SizesIncrease(count, |b.rows|);
    ReadBackHeader(m, count);
    RowsOfHeld(m, b.rows, count);
    assert b.rows[..|b.rows|] == b.rows;
    if count == n { assert b.rows[..n] == handle; }
  }

  lemma TwoHeadersCount(w: World, b: Ledger, handle: seq<Slot>, slot: Slot) returns (count: uint64)
    requires OnlyTwoHeaders(w, b, handle, slot)
    ensures HeaderHas(w.table.Now(), count) && count <= |b.rows|
    ensures count == |handle| || (count == |handle| + 1 && b.rows == handle + [slot])
  {
    hide HeaderHas, Inv, Room;
    assert w.table.Now() in w.table.images;
    count := if HeaderHas(w.table.Now(), |handle|) then |handle| else |handle| + 1;
  }

  lemma BeginsTwoHeaders(w: World, a: Ledger, slot: Slot)
    requires Inv(w, a) && Fresh(w) && JournalsAgree(w) && Enabled(w, BeginInsert(slot))
    ensures OnlyTwoHeaders(Next(w, BeginInsert(slot)), Ledger(View(w), w.ctl.count, w.ctl.count), View(w), slot)
  {
    hide Inv, Hazard, JournalsAgree, ReadHeader, HeaderHas, Rows, Room, TrueOffset, OffsetForRow;
    FreshLedger(w, a);
    AgreeingLedger(w, a);
    FreshRests(w, a);
    BeginKeeps(w, Ledger(View(w), w.ctl.count, w.ctl.count), slot);
  }

  // ----- exactly when a journal may be overlooked -----

  /** Whatever happens after an insert begins, overlooking a journal shows the old rows or the new ones. */
  ghost predicate BlindStaysRight(w: World, slot: Slot)
    requires w.ctl.Open?
  {
    forall es: seq<Event>, w': World ::
      NoInserts(es) && Runs(w, [BeginInsert(slot)] + es, w') ==>
        BlindView(w').Some? && OldOrNew(View(w), slot, BlindView(w').value)
  }

  lemma BlindIsRight(w: World, a: Ledger, slot: Slot, es: seq<Event>, w': World)
    requires Inv(w, a) && Fresh(w) && JournalsAgree(w) && (w.ctl.count % 256 != 255 || !Room(w.ctl.count))
    requires NoInserts(es) && Runs(w, [BeginInsert(slot)] + es, w')
    ensures BlindView(w').Some? && OldOrNew(View(w), slot, BlindView(w').value)
  {
    hide Inv, Runs, JournalsAgree, ReadHeader, OnlyTwoHeaders, BlindView, OldOrNew, Room, Rows;
    RunsFirst(w, BeginInsert(slot), es, w');
    BeginsTwoHeaders(w, a, slot);
    var n := Ledger(View(w), w.ctl.count, w.ctl.count);
    var b := TwoHeadersRun(Next(w, BeginInsert(slot)), n, View(w), slot, es, w');
    TwoHeadersShow(w', b, View(w), slot);
  }

  /** The calls of an insert before the write of the header, all successful, and that write. */
  const UP_TO_HEADER: seq<Event> := Successes(7) + [Succeed]

  /** The header of the count after this lies, not synchronised, over that of this one. */
  ghost predicate HeaderPending(f: File, count: uint64, rows: seq<Slot>) {
    && |f.images| == 2 && count + 1 <= U64_MAX
    && HeaderHas(f.images[0], count) && Holds(f.images[0], rows) && |f.images[0]| <= LONG_MAX
    && f.images[1] == Patch(f.images[0], 0, Header(count + 1))
  }

  lemma ReachHeaderWrite(w: World, a: Ledger, slot: Slot) returns (n: World)
    requires Inv(w, a) && Fresh(w) && JournalsAgree(w) && CanInsert(w.ctl.count) && Room(w.ctl.count)
    ensures Runs(w, [BeginInsert(slot)] + UP_TO_HEADER, n)
    ensures |n.entries| == 1 && n.Journal().Some? && HeaderPending(n.table, w.ctl.count, View(w) + [slot])
  {
    hide Inv, Runs, JournalsAgree, ReadHeader, OnlyTwoHeaders, Rows, Successes, InsertSucceeds, TrueOffset, CanInsert,
      HeaderPending, CrashImage, HeaderHas, Decode, Encode, Patch, Header;
    BeginsTwoHeaders(w, a, slot);
    var begun := Next(w, BeginInsert(slot));
    var b := Ledger(View(w), w.ctl.count, w.ctl.count);
    assert Inv(begun, b) by { OnlyTwoAre(begun, b, View(w), slot); }
    var m, c := ReachCall(begun, b, 7, 3);
    var d := TwoHeadersRun(begun, b, View(w), slot, Successes(7), m);
    n := InsertSucceeds(m);
    AtHeaderWrite(m, d, View(w), slot);
    RunsOne(w, BeginInsert(slot));
    RunsThen(w, [BeginInsert(slot)], begun, Successes(7), m);
    Extend(w, [BeginInsert(slot)] + Successes(7), m, Succeed, n);
    assert [BeginInsert(slot)] + Successes(7) + [Succeed] == [BeginInsert(slot)] + UP_TO_HEADER;
  }

  lemma OnlyTwoAre(w: World, b: Ledger, handle: seq<Slot>, slot: Slot)
    requires OnlyTwoHeaders(w, b, handle, slot)
    ensures Inv(w, b)
  {
    hide Inv;
  }

  lemma AtHeaderWrite(m: World, d: Ledger, handle: seq<Slot>, slot: Slot)
    requires OnlyTwoHeaders(m, d, handle, slot) && m.ctl.Inserting? && m.ctl.insertStep.WriteHeader?
    requires CanInsert(m.ctl.count)
    ensures m.ctl.count == |handle| && Enabled(m, Succeed) && Next(m, Succeed) == InsertSucceeds(m)
    ensures var n := InsertSucceeds(m);
            |n.entries| == 1 && n.Journal().Some? && HeaderPending(n.table, |handle|, handle + [slot])
  {
    hide HeaderHas, Header, Patch, TrueOffset, OffsetForRow, Holds, Encode, Decode, Room;
    assert m.table.Now() in m.table.images;
    assert d.rows == handle + [slot];
  }

  /**
   Power fails between the write of the header and its synchronisation, and of the header
   every byte but the lowest of the count is the old one: the count is 255 less than before.
   The journal is there, and recovery would put the count right; overlooking the journal
   hides 255 rows, whether they were acknowledged or not.
   */
  lemma TornCountHidesRows(w: World, a: Ledger, slot: Slot) returns (es: seq<Event>, w': World, shown: seq<Slot>)
    requires Inv(w, a) && Fresh(w) && JournalsAgree(w) && CanInsert(w.ctl.count)
    requires w.ctl.count % 256 == 255 && Room(w.ctl.count)
    ensures NoInserts(es) && Runs(w, [BeginInsert(slot)] + es, w') && w'.ctl.Closed? && w'.Journal().Some?
    ensures BlindView(w') == Some(shown) && shown <= View(w) && |shown| + 255 == |View(w)|
  {
    hide Inv, Runs, JournalsAgree, ReadHeader, Rows, Successes, CanInsert, Room, BlindView, HeaderPending;
    var n := ReachHeaderWrite(w, a, slot);
    var crash;
    crash, w', shown := TearHeader(n, w.ctl.count, View(w) + [slot]);
    Extend(w, [BeginInsert(slot)] + UP_TO_HEADER, n, crash, w');
    es := UP_TO_HEADER + [crash];
    assert [BeginInsert(slot)] + UP_TO_HEADER + [crash] == [BeginInsert(slot)] + es;
  }

  lemma TearHeader(n: World, count: uint64, rows: seq<Slot>) returns (crash: Event, w': World, shown: seq<Slot>)
    requires 255 <= count && count % 256 == 255 && |rows| == count + 1
    requires |n.entries| == 1 && n.Journal().Some? && HeaderPending(n.table, count, rows)
    ensures crash.Crash? && Enabled(n, crash) && w' == Next(n, crash) && w'.ctl.Closed? && w'.Journal().Some?
    ensures BlindView(w') == Some(shown) && shown <= rows && |shown| + 256 == |rows|
  {
    hide ReadHeader, Rows, CrashImage, HeaderHas, Patch, Holds, Header, TrueOffset;
    var m := n.table.images[0];
    var t := Patch(m, 0, Header(count - 255));
    HeldSize(m, rows);
    TornCount(n.table, count, rows);
    crash := Crash(t, 0, n.Journal().value.Now());
    LastImageSurvives(n.Journal().value);
    w' := Next(n, crash);
    PatchHeaderKeeps(m, rows, Header(count - 255));
    RowsOfHeld(t, rows, count - 255);
    shown := rows[..count - 255];
  }

  lemma TornCount(f: File, count: uint64, rows: seq<Slot>)
    requires 255 <= count && count % 256 == 255 && |rows| == count + 1 && HeaderPending(f, count, rows)
    ensures CrashImage(f, Patch(f.images[0], 0, Header(count - 255)))
    ensures ReadHeader(Patch(f.images[0], 0, Header(count - 255))) == Good(count - 255)
  {
    hide Header, TrueSize, ReadHeader, Patch, SlotAt, CrashImage;
    var m := f.images[0];
    var t := Patch(m, 0, Header(count - 255));
    SizesIncrease(count - 255, count + 1);
    assert HeaderHas(f.images[1], count + 1) && HeaderHas(t, count - 255);
    TornBetween(f, m, f.images[1], count, t);
    ReadBackHeader(t, count - 255);
  }

  /**
   Acknowledged rows can be hidden so: from any settled table whose count ends in 255, one
   open, one insert and one crash, every handle fresh.
   */
  lemma AcknowledgedRowsHidden(w0: World, rows: seq<Slot>, slot: Slot)
    returns (es: seq<Event>, w': World, shown: seq<Slot>)
    requires Initial(w0, rows) && |rows| % 256 == 255 && |rows| + 1 <= U64_MAX && Room(|rows|)
    ensures Runs(w0, es, w') && FreshHandles(w0, es) && w'.Journal().Some? && BlindView(w') == Some(shown)
    ensures |shown| + 255 == |rows| && |shown| in w'.acked && w'.acked[|shown|] == rows[|shown|]
  {
    hide Inv, Initial, Runs, Rows, TrueOffset, HeaderHas, ReadHeader, FreshHandles, Next, Enabled, BlindView, Room,
      CanInsert, Fresh, JournalsAgree, Careful;
    InitialRest(w0, rows);
    var open, a := OpenInitial(w0, rows);
    AgreesAfterOpen(w0, open);
    var rest;
    rest, w', shown := TornCountHidesRows(open, a, slot);
    es := [OpenTable] + ([BeginInsert(slot)] + rest);
    RunsOne(w0, OpenTable);
    RunsThen(w0, [OpenTable], open, [BeginInsert(slot)] + rest, w');
    RunsFirst(open, BeginInsert(slot), rest, w');
    NoInsertsIsFresh(Next(open, BeginInsert(slot)), rest);
    FreshCons(open, BeginInsert(slot), rest);
    FreshCons(w0, OpenTable, [BeginInsert(slot)] + rest);
    FreshHandlesAreCareful(w0, es);
    AcknowledgedRowsStay(w0, rows, es, w');
  }

  lemma InitialRest(w0: World, rows: seq<Slot>)
    requires Initial(w0, rows) && |rows| + 1 <= U64_MAX && Room(|rows|)
    ensures w0.entries == [None] && w0.ctl.Closed? && CanInsert(|rows|)
  {
  }

  lemma AgreesAfterOpen(w0: World, open: World)
    requires w0.entries == [None] && w0.ctl.Closed? && open == Next(w0, OpenTable) && Fresh(open)
    ensures open.ctl.Open? && JournalsAgree(open)
  {
    hide ReadHeader, Decode;
  }

  /** Recovery with a journal that disagrees takes a row away for every kind of open. */
  lemma OldJournalBlinds(w: World, a: Ledger, slot: Slot) returns (es: seq<Event>, w': World)
    requires Inv(w, a) && Fresh(w) && CanInsert(w.ctl.count) && !JournalsAgree(w)
    ensures NoInserts(es) && Runs(w, [BeginInsert(slot)] + es, w')
    ensures BlindView(w').Some? && !OldOrNew(View(w), slot, BlindView(w').value)
  {
    hide Inv, Runs, JournalsAgree, ReadHeader, Rows, CanInsert, HeaderHas, Holds, Fresh;
    es, w' := OldJournalReturns(w, a, slot);
    HeldSize(w'.table.Now(), View(w'));
    ReadBackHeader(w'.table.Now(), |View(w')|);
  }

  /**
   Exactly when a read-only open may take a failed test for the journal for its absence: on a
   handle fresh from an open, whatever happens once an insert has begun, it then shows the old
   rows or the new ones if and only if no journal disagrees with the handle, and its count does
   not end in the byte 255 or there is no room for the row.
   */
  lemma BlindRightExactly(w: World, a: Ledger, slot: Slot)
    requires Inv(w, a) && Fresh(w) && CanInsert(w.ctl.count)
    ensures BlindStaysRight(w, slot) <==> JournalsAgree(w) && (w.ctl.count % 256 != 255 || !Room(w.ctl.count))
  {
    hide Inv, Runs, JournalsAgree, ReadHeader, BlindView, OldOrNew, Room, Rows, CanInsert;
    if !JournalsAgree(w) {
      var es, w' := OldJournalBlinds(w, a, slot);
    } else if w.ctl.count % 256 != 255 || !Room(w.ctl.count) {
      forall es: seq<Event>, w': World | NoInserts(es) && Runs(w, [BeginInsert(slot)] + es, w')
        ensures BlindView(w').Some? && OldOrNew(View(w), slot, BlindView(w').value)
      {
        BlindIsRight(w, a, slot, es, w');
      }
    } else {
      var es, w', shown := TornCountHidesRows(w, a, slot);
      assert !OldOrNew(View(w), slot, shown) by { Shorter(View(w), slot, shown); }
    }
  }

  lemma Shorter(handle: seq<Slot>, slot: Slot, view: seq<Slot>)
    requires |view| < |handle|
    ensures !OldOrNew(handle, slot, view)
  {
  }

  /** So it is on every fresh handle of every careful run. */
  lemma BlindRightInRuns(w0: World, rows: seq<Slot>, before: seq<Event>, w: World, slot: Slot)
    requires Initial(w0, rows) && Runs(w0, before, w) && Careful(w0, before)
    requires Fresh(w) && CanInsert(w.ctl.count)
    ensures BlindStaysRight(w, slot) <==> JournalsAgree(w) && (w.ctl.count % 256 != 255 || !Room(w.ctl.count))
  {
    hide Inv, Runs, Careful, Fresh, JournalsAgree, CanInsert, Room, BlindStaysRight;
    InitialInv(w0, rows);
    var a := RunKeeps(w0, Ledger(rows, |rows|, |rows|), before, w);
    BlindRightExactly(w, a, slot);
  }
}
