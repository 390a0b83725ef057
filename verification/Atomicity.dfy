/**
 What later opens may show once an insert has begun: on any handle that is not hazardous, on
 a handle fresh from an open, and exactly when that is the old rows or the old rows and the
 new one.
 */
module Atomicity {
  import opened Bytes
  import opened Layout
  import opened Journal
  import opened Disk
  import opened Protocol
  import opened CrashSafety
  import opened StaleHandle

  // ----- any handle -----

  /** An insert of `slot` is or was under way on the first `count` rows of `a`, and no other. */
  ghost predicate Over(w: World, b: Ledger, a: Ledger, count: nat, slot: Slot) {
    && Inv(w, b)
    && a.lo <= count <= |a.rows| <= a.lo + 1 && a.lo <= b.lo
    && (b.rows <= a.rows || b.rows == a.rows[..count] + [slot])
    && (w.ctl.Inserting? ==> w.ctl.count == count && w.ctl.slot == slot)
  }

  lemma OverStep(w: World, b: Ledger, a: Ledger, count: nat, slot: Slot, e: Event) returns (b': Ledger)
    requires Over(w, b, a, count, slot) && Enabled(w, e) && !e.BeginInsert?
    ensures Over(Next(w, e), b', a, count, slot)
  {
    hide Inv, Enabled, Hazard, Next, RowsMove;
    b' := StepKeeps(w, b, e);
    LedgerShape(w, b);
    LedgerShape(Next(w, e), b');
    InsertStays(w, e);
    if w.ctl.Inserting? && w.ctl.count <= |b.rows| {
      assert b.rows[..count] == a.rows[..count];
    }
  }

  lemma {:induction false} OverRun(w: World, b: Ledger, a: Ledger, count: nat, slot: Slot, es: seq<Event>, w': World)
    returns (b': Ledger)
    requires Over(w, b, a, count, slot) && NoInserts(es) && Runs(w, es, w')
    ensures Over(w', b', a, count, slot)
    decreases |es|
  {
    hide Over, Enabled, Next;
    if es == [] {
      b' := b;
    } else {
      assert es[0] in es;
      var c := OverStep(w, b, a, count, slot, es[0]);
      b' := OverRun(Next(w, es[0]), c, a, count, slot, es[1..], w');
    }
  }

  /** The guaranteed rows, those and the one in doubt, or the handle's rows and the new one. */
  ghost predicate MayShow(a: Ledger, handle: seq<Slot>, slot: Slot, view: seq<Slot>) {
    (a.lo <= |a.rows| && view == a.rows[..a.lo]) || view == a.rows || view == handle + [slot]
  }

  lemma OverShows(w: World, b: Ledger, a: Ledger, count: nat, slot: Slot, n: nat)
    requires Over(w, b, a, count, slot) && b.lo <= n <= |b.rows|
    ensures MayShow(a, a.rows[..count], slot, b.rows[..n])
  {
    hide Inv;
    if b.rows <= a.rows {
      assert b.rows[..n] == a.rows[..n];
      assert a.rows[..|a.rows|] == a.rows;
    } else {
      var base := a.rows[..count];
      if n == count + 1 {
        assert b.rows[..n] == b.rows;
      } else {
        assert b.rows[..n] == base[..n] == a.rows[..n];
        assert a.rows[..|a.rows|] == a.rows;
      }
    }
  }

  /**
   On every handle a run can produce, save the hazardous kind: whatever happens after an
   insert begins, short of another insert, no later open shows anything but the guaranteed
   rows, these and the one row that may be in doubt, or the handle's rows and the new one.
   */
  lemma LaterViews(w: World, a: Ledger, slot: Slot, es: seq<Event>, w': World)
    requires Inv(w, a) && w.ctl.Open? && !Hazard(w)
    requires NoInserts(es) && Runs(w, [BeginInsert(slot)] + es, w')
    ensures w'.ctl.Open? ==> MayShow(a, View(w), slot, View(w'))
    ensures ReadOnlyView(w').Some? ==> MayShow(a, View(w), slot, ReadOnlyView(w').value)
  {
    hide Inv, Hazard, Rows, ReadHeader, MayShow;
    var begin := BeginInsert(slot);
    RunsFirst(w, begin, es, w');
    var count := w.ctl.count;
    ViewsAreHeld(w, a);
    BeginsOver(w, a, slot);
    var b := OverRun(Next(w, begin), a, a, count, slot, es, w');
    ViewsAreHeld(w', b);
    if w'.ctl.Open? { OverShows(w', b, a, count, slot, b.top); }
    if ReadOnlyView(w').Some? { OverShows(w', b, a, count, slot, |ReadOnlyView(w').value|); }
  }

  lemma RunsFirst(w: World, e: Event, es: seq<Event>, w': World)
    requires Runs(w, [e] + es, w')
    ensures Enabled(w, e) && Runs(Next(w, e), es, w')
  {
    hide Enabled, Next;
    assert ([e] + es)[1..] == es;
  }

  lemma BeginsOver(w: World, a: Ledger, slot: Slot)
    requires Inv(w, a) && w.ctl.Open? && !Hazard(w) && Enabled(w, BeginInsert(slot))
    ensures Over(Next(w, BeginInsert(slot)), a, a, w.ctl.count, slot)
  {
    hide Inv, Hazard, CanInsert, View, ReadOnlyView;
    BeginKeeps(w, a, slot);
    ViewsAreHeld(w, a);
  }

  // ----- a fresh handle -----

  /** The rows beyond a fresh handle's own are no longer within reach of any open. */
  lemma FreshLedger(w: World, a: Ledger)
    requires Inv(w, a) && Fresh(w)
    ensures !Hazard(w) && Inv(w, Ledger(View(w), a.lo, w.ctl.count))
  {
    hide View, ReadOnlyView, Rows, ReadHeader, Decode, HeaderHas, SlotAt, TrueSize, Holds, Hazard;
    FreshHandleIsSafe(w);
    FreshRests(w, a);
    ViewsAreHeld(w, a);
    HoldFewer(w.table, a.rows, w.ctl.count);
  }

  lemma FreshRests(w: World, a: Ledger)
    requires Inv(w, a) && Fresh(w)
    ensures Resting(w, w.ctl.count)
  {
    hide ReadHeader, Decode, HeaderHas, SlotAt, TrueSize, Holds;
    var m := w.table.Now();
    assert m in w.table.images;
    if !Resting(w, a.top) {
      assert TrueSize(|a.rows|) <= |m| by { HeldSize(m, a.rows); }
      ReadBackHeader(m, |a.rows|);
    }
  }

  lemma HeldSize(m: seq<byte>, rows: seq<Slot>)
    requires Holds(m, rows)
    ensures TrueSize(|rows|) <= |m|
  {
    hide TrueSize, SlotAt;
  }

  /** Every journal a crash can still bring back asks for the handle's own count. */
  ghost predicate JournalsAgree(w: World)
    requires w.ctl.Open?
  {
    forall e :: e in w.entries && e.Some? ==> Decode(e.value.Now(), w.name) == Some(w.ctl.count)
  }

  lemma AgreeingLedger(w: World, a: Ledger)
    requires Inv(w, a) && Fresh(w) && JournalsAgree(w)
    ensures Inv(w, Ledger(View(w), w.ctl.count, w.ctl.count))
  {
    hide View, ReadOnlyView, Rows, ReadHeader, Decode, HeaderHas, SlotAt, TrueSize, Holds, Hazard;
    FreshLedger(w, a);
    ViewsAreHeld(w, a);
    var n := w.ctl.count;
    forall e | e in w.entries ensures EntryFits(e, w.name, n, n) {
      assert EntryFits(e, w.name, a.lo, n);
      if e.Some? { assert JournalOf(e, w.name, n); }
    }
  }

  /** From a fresh handle: the guaranteed rows, the handle's rows, or those and the new one. */
  lemma LaterViewsOfFresh(w: World, a: Ledger, slot: Slot, es: seq<Event>, w': World)
    requires Inv(w, a) && Fresh(w)
    requires NoInserts(es) && Runs(w, [BeginInsert(slot)] + es, w')
    ensures var guaranteed := Ledger(View(w), a.lo, w.ctl.count);
            && (w'.ctl.Open? ==> MayShow(guaranteed, View(w), slot, View(w')))
            && (ReadOnlyView(w').Some? ==> MayShow(guaranteed, View(w), slot, ReadOnlyView(w').value))
  {
    hide Inv, Hazard, Rows, ReadHeader, MayShow, Runs;
    FreshLedger(w, a);
    LaterViews(w, Ledger(View(w), a.lo, w.ctl.count), slot, es, w');
  }

  /** The old rows, or the old rows and the new one. */
  ghost predicate OldOrNew(handle: seq<Slot>, slot: Slot, view: seq<Slot>) {
    view == handle || view == handle + [slot]
  }

  /**
   Atomicity of one insert. Begin it on a fresh handle no journal disagrees with, and let
   anything happen that is not another insert: errors at any call, closing, reopening, and
   crashes at any point, again and again during recovery. Every later view shows exactly the
   old rows or the old rows and the new one, and the latter once the insert has returned OK.
   */
  lemma OneInsertIsAtomic(w: World, a: Ledger, slot: Slot, es: seq<Event>, w': World)
    requires Inv(w, a) && Fresh(w) && JournalsAgree(w)
    requires NoInserts(es) && Runs(w, [BeginInsert(slot)] + es, w')
    ensures w'.ctl.Open? ==> OldOrNew(View(w), slot, View(w'))
    ensures ReadOnlyView(w').Some? ==> OldOrNew(View(w), slot, ReadOnlyView(w').value)
    ensures w.ctl.count in w'.acked ==>
              && (w'.ctl.Open? ==> View(w') == View(w) + [slot])
              && (ReadOnlyView(w').Some? ==> ReadOnlyView(w').value == View(w) + [slot])
  {
    hide Inv, Hazard, Rows, ReadHeader, Runs, JournalsAgree, Careful;
    FreshLedger(w, a);
    AgreeingLedger(w, a);
    var b := Ledger(View(w), w.ctl.count, w.ctl.count);
    assert b.rows[..b.lo] == b.rows;
    LaterViews(w, b, slot, es, w');
    LaterAcked(w, b, slot, es, w');
  }

  // ----- exactly when -----

  /** Whatever happens after an insert of `slot` begins, later opens show the old rows or the new ones. */
  ghost predicate StaysAtomic(w: World, slot: Slot)
    requires w.ctl.Open?
  {
    forall es: seq<Event>, w': World ::
      NoInserts(es) && Runs(w, [BeginInsert(slot)] + es, w') ==>
        && (w'.ctl.Open? ==> OldOrNew(View(w), slot, View(w')))
        && (ReadOnlyView(w').Some? ==> OldOrNew(View(w), slot, ReadOnlyView(w').value))
  }

  /**
   On a handle fresh from an open, an insert is atomic if and only if no journal that a
   crash can still bring back asks for another count than the handle's.
   */
  lemma AtomicExactlyIfJournalsAgree(w: World, a: Ledger, slot: Slot)
    requires Inv(w, a) && Fresh(w) && CanInsert(w.ctl.count)
    ensures StaysAtomic(w, slot) <==> JournalsAgree(w)
  {
    hide Inv, ReadHeader, JournalsAgree, Runs, View, ReadOnlyView, CanInsert, OldOrNew, Settled;
    if JournalsAgree(w) {
      forall es: seq<Event>, w': World | NoInserts(es) && Runs(w, [BeginInsert(slot)] + es, w')
        ensures w'.ctl.Open? ==> OldOrNew(View(w), slot, View(w'))
        ensures ReadOnlyView(w').Some? ==> OldOrNew(View(w), slot, ReadOnlyView(w').value)
      {
        OneInsertIsAtomic(w, a, slot, es, w');
      }
    } else {
      var es, w' := OldJournalReturns(w, a, slot);
    }
  }

  /** The disagreeing journal is found after a crash, and its recovery takes rows back. */
  lemma OldJournalReturns(w: World, a: Ledger, slot: Slot) returns (es: seq<Event>, w': World)
    requires Inv(w, a) && Fresh(w) && CanInsert(w.ctl.count) && !JournalsAgree(w)
    ensures NoInserts(es) && Runs(w, [BeginInsert(slot)] + es, w')
    ensures w'.ctl.Open? && |View(w)| > 0 && View(w') == View(w)[..|View(w)| - 1]
    ensures !OldOrNew(View(w), slot, View(w')) && Settled(w', View(w'))
  {
    hide Inv, Runs, Rows, ReadHeader, Decode, CanInsert, Hazard, Successes, CrashImage, TrueOffset, HeaderHas, Encode;
    var e :| e in w.entries && e.Some? && Decode(e.value.Now(), w.name) != Some(w.ctl.count);
    var i :| 0 <= i < |w.entries| && w.entries[i] == e;
    DisagreeingCount(w, a, e);
    FreshLedger(w, a);
    var begun := w.(ctl := Inserting(MakeTemp, w.ctl.count, slot));
    BeginKeeps(w, a, slot);
    var crash := Crash(w.table.Now(), i, e.value.Now());
    LastImageSurvives(w.table);
    LastImageSurvives(e.value);
    var b := CrashKeeps(begun, a, crash);
    var crashed := Next(begun, crash);
    var rows;
    w', rows := ReopenWithJournal(crashed, b);
    RunsOne(w, BeginInsert(slot));
    Extend(w, [BeginInsert(slot)], begun, crash, crashed);
    RunsThen(w, [BeginInsert(slot)] + [crash], crashed, [OpenTable] + Successes(6), w');
    es := [crash] + ([OpenTable] + Successes(6));
    assert [BeginInsert(slot)] + [crash] + ([OpenTable] + Successes(6)) == [BeginInsert(slot)] + es;
    assert |View(w')| == a.lo < |View(w)|;
    LaterViewsOfFresh(w, a, slot, es, w');
  }

  lemma DisagreeingCount(w: World, a: Ledger, e: Option<File>)
    requires Inv(w, a) && Fresh(w) && e in w.entries && e.Some?
    requires Decode(e.value.Now(), w.name) != Some(w.ctl.count)
    ensures w.ctl.count == a.lo + 1 && Decode(e.value.Now(), w.name) == Some(a.lo)
  {
    hide Decode, ReadHeader, SlotAt, HeaderHas, Holds;
    assert EntryFits(e, w.name, a.lo, a.top);
  }

  lemma LastImageSurvives(f: File)
    ensures CrashImage(f, f.Now())
  {
    var k := |f.images| - 1;
    forall i | 0 <= i < |f.Now()| ensures ByteSurvives(f, i, f.Now()[i]) {
      assert At(f.images[k], i) == f.Now()[i];
    }
    assert |f.images[k]| <= |f.Now()| <= |f.images[k]|;
  }

  /** What is acknowledged is shown. */
  lemma LaterAcked(w: World, a: Ledger, slot: Slot, es: seq<Event>, w': World)
    requires Inv(w, a) && w.ctl.Open? && !Hazard(w)
    requires NoInserts(es) && Runs(w, [BeginInsert(slot)] + es, w')
    ensures forall k :: k in w'.acked ==> (w'.ctl.Open? ==> k < |View(w')|)
                                          && (ReadOnlyView(w').Some? ==> k < |ReadOnlyView(w').value|)
  {
    hide Inv, Hazard, Rows, ReadHeader, Runs, Careful;
    RunsHead(w, BeginInsert(slot), es, w');
    NoInsertsIsCareful(Next(w, BeginInsert(slot)), es);
    CarefulCons(w, BeginInsert(slot), es);
    var b := RunKeeps(w, a, [BeginInsert(slot)] + es, w');
    ViewsAreHeld(w', b);
  }

  // ----- whole runs -----

  /** The condition is exact on every fresh handle of every careful run. */
  lemma AtomicExactlyInRuns(w0: World, rows: seq<Slot>, before: seq<Event>, w: World, slot: Slot)
    requires Initial(w0, rows) && Runs(w0, before, w) && Careful(w0, before)
    requires Fresh(w) && CanInsert(w.ctl.count)
    ensures StaysAtomic(w, slot) <==> JournalsAgree(w)
  {
    hide Inv, Runs, Careful, Fresh, CanInsert, Rows;
    InitialInv(w0, rows);
    var a := RunKeeps(w0, Ledger(rows, |rows|, |rows|), before, w);
    AtomicExactlyIfJournalsAgree(w, a, slot);
  }

  /**
   A directory synchronisation with no journal there, be it for the index file, the last call
   of an insert that returns OK, or the last call of a recovery.
   */
  ghost predicate SettlesDirectory(w: World, e: Event) {
    || (e.SyncDirectory? && w.Journal().None?)
    || (e.Succeed? && w.ctl.Inserting? && w.ctl.insertStep.SyncUnlink?)
    || (e.Succeed? && w.ctl.Recovering? && w.ctl.recoverStep.SyncDrop?)
  }

  /** It leaves no journal that could come back. */
  lemma SettledEntries(w: World, a: Ledger, e: Event)
    requires Inv(w, a) && Enabled(w, e) && SettlesDirectory(w, e)
    ensures Next(w, e).entries == [None] && !Next(w, e).ctl.Inserting? && !Next(w, e).ctl.Recovering?
  {
    hide DiskFits, ReadHeader, Encode, Header, Patch, Resize, TrueOffset, HeaderHas, Decode, CanInsert;
  }

  /** And none does until the next insert. */
  lemma {:induction false} NoJournalStays(w: World, es: seq<Event>, w': World)
    requires w.entries == [None] && !w.ctl.Inserting? && !w.ctl.Recovering? && NoInserts(es) && Runs(w, es, w')
    ensures w'.entries == [None]
    decreases |es|
  {
    hide ReadHeader, CrashImage, Decode, Encode, Header, Patch, Resize, TrueOffset;
    if es != [] {
      assert es[0] in es;
      NoJournalStays(Next(w, es[0]), es[1..], w');
    }
  }

  /**
   After any such call, whatever else happens short of an insert, every fresh handle agrees
   with the journals, so the next insert is atomic.
   */
  lemma AtomicOnceSettled(w: World, a: Ledger, e: Event, es: seq<Event>, w': World, slot: Slot)
    requires Inv(w, a) && Enabled(w, e) && SettlesDirectory(w, e)
    requires NoInserts(es) && Runs(Next(w, e), es, w') && Fresh(w') && CanInsert(w'.ctl.count)
    ensures JournalsAgree(w') && StaysAtomic(w', slot)
  {
    hide Inv, Runs, Fresh, CanInsert, Careful, StaysAtomic, Next, Enabled;
    SettledEntries(w, a, e);
    NoJournalStays(Next(w, e), es, w');
    var b := StepKeeps(w, a, e);
    NoInsertsIsCareful(Next(w, e), es);
    var c := RunKeeps(Next(w, e), b, es, w');
    assert JournalsAgree(w') && w'.ctl.Open? by { AgreesTrivially(w'); }
    AtomicExactlyIfJournalsAgree(w', c, slot);
  }

  lemma AgreesTrivially(w: World)
    requires Fresh(w) && w.entries == [None]
    ensures w.ctl.Open? && JournalsAgree(w)
  {
  }

  /** The handle's rows without the last, which no insert had acknowledged. */
  ghost predicate TakenBack(w: World, view: seq<Slot>)
    requires w.ctl.Open?
  {
    var n := |View(w)|;
    n > 0 && n - 1 !in w.acked && view == View(w)[..n - 1]
  }

  ghost predicate Follows(w: World, slot: Slot, view: seq<Slot>)
    requires w.ctl.Open?
  {
    OldOrNew(View(w), slot, view) || TakenBack(w, view)
  }

  /**
   Atomicity over whole runs, whatever failed before: from a fresh handle, later opens show
   its rows, these and the new one, or its rows without one last row that no insert had
   acknowledged.
   */
  lemma LaterViewsInRuns(w0: World, rows: seq<Slot>, before: seq<Event>, w: World, slot: Slot, es: seq<Event>,
                         w': World)
    requires Initial(w0, rows) && Runs(w0, before, w) && Careful(w0, before) && Fresh(w)
    requires NoInserts(es) && Runs(w, [BeginInsert(slot)] + es, w')
    ensures w'.ctl.Open? ==> Follows(w, slot, View(w'))
    ensures ReadOnlyView(w').Some? ==> Follows(w, slot, ReadOnlyView(w').value)
  {
    hide Inv, Runs, Careful, Rows, ReadHeader;
    InitialInv(w0, rows);
    var a := RunKeeps(w0, Ledger(rows, |rows|, |rows|), before, w);
    FollowsFresh(w, a, slot, es, w');
  }

  lemma FollowsFresh(w: World, a: Ledger, slot: Slot, es: seq<Event>, w': World)
    requires Inv(w, a) && Fresh(w)
    requires NoInserts(es) && Runs(w, [BeginInsert(slot)] + es, w')
    ensures w'.ctl.Open? ==> Follows(w, slot, View(w'))
    ensures ReadOnlyView(w').Some? ==> Follows(w, slot, ReadOnlyView(w').value)
  {
    hide Inv, Runs, Rows, ReadHeader;
    LaterViewsOfFresh(w, a, slot, es, w');
    ViewsAreHeld(w, a);
    assert View(w)[..|View(w)|] == View(w);
  }

  // ----- a row that is shown and taken back -----

  /** An open of a settled table and an insert of which all but the last call succeed. */
  const UP_TO_LAST: seq<Event> := Successes(9) + [Succeed, Fail(0)]

  /** The insert has returned an error, its journal is gone but not durably so, and its row is there. */
  lemma LastCallLeavesJournal(w: World, a: Ledger, slot: Slot) returns (w': World, a': Ledger)
    requires Inv(w, a) && Fresh(w) && CanInsert(w.ctl.count) && TrueOffset(w.ctl.count) + ROW_SIZE <= LONG_MAX
    ensures Runs(w, [BeginInsert(slot)] + UP_TO_LAST, w') && Inv(w', a')
    ensures w'.ctl == Open(w.ctl.count) && w'.name == w.name && HeaderHas(w'.table.Now(), w.ctl.count + 1)
    ensures a'.rows == View(w) + [slot] && a'.lo == w.ctl.count
    ensures |w'.entries| == 2 && w'.entries[1] == None && JournalOf(w'.entries[0], w.name, w.ctl.count)
  {
    hide Inv, Runs, Rows, ReadHeader, TrueOffset, CanInsert, Hazard, HeaderHas, Decode, Successes, InsertSucceeds,
      InsertFails;
    FreshLedger(w, a);
    var b := Ledger(View(w), a.lo, w.ctl.count);
    var begun := w.(ctl := Inserting(MakeTemp, w.ctl.count, slot));
    BeginKeeps(w, b, slot);
    RunsOne(w, BeginInsert(slot));
    var m, c := ReachCall(begun, b, 9, 1);
    RunsThen(w, [BeginInsert(slot)], begun, Successes(9), m);
    var last, d := UnlinkThenFail(m, c);
    w', a' := last, d;
    Extend(w, [BeginInsert(slot)] + Successes(9), m, Succeed, InsertSucceeds(m));
    Extend(w, [BeginInsert(slot)] + Successes(9) + [Succeed], InsertSucceeds(m), Fail(0), w');
    assert [BeginInsert(slot)] + Successes(9) + [Succeed] + [Fail(0)] == [BeginInsert(slot)] + UP_TO_LAST;
    assert a'.rows == a'.rows[..w.ctl.count] + [slot];
    assert View(w)[..w.ctl.count] == View(w);
  }

  lemma UnlinkThenFail(m: World, c: Ledger) returns (w': World, a': Ledger)
    requires Inv(m, c) && m.ctl.Inserting? && m.ctl.insertStep.UnlinkJournal? && CanInsert(m.ctl.count)
    ensures Enabled(m, Succeed) && Next(m, Succeed) == InsertSucceeds(m)
    ensures Enabled(InsertSucceeds(m), Fail(0)) && w' == Next(InsertSucceeds(m), Fail(0))
    ensures Inv(w', a') && a' == c
    ensures |c.rows| == m.ctl.count + 1 && c.rows[m.ctl.count] == m.ctl.slot && c.lo == m.ctl.count
    ensures w'.ctl == Open(m.ctl.count) && w'.name == m.name && HeaderHas(w'.table.Now(), m.ctl.count + 1)
    ensures |w'.entries| == 2 && w'.entries[1] == None && JournalOf(w'.entries[0], m.name, m.ctl.count)
  {
    hide Encode, Header, TrueOffset, Decode, OffsetForRow, HeaderHas, SlotAt, ReadHeader, Holds;
    var n := InsertSucceeds(m);
    var b := UnlinkStepKeeps(m, c);
    InsertFailKeeps(n, b, 0);
    w', a' := InsertFails(n, 0), b;
  }

  lemma {:induction false} NoInsertsIsFresh(w: World, es: seq<Event>)
    requires NoInserts(es)
    ensures FreshHandles(w, es)
    decreases |es|
  {
    hide Next, Enabled, ReadHeader;
    if es != [] {
      assert es[0] in es;
      if Enabled(w, es[0]) { NoInsertsIsFresh(Next(w, es[0]), es[1..]); }
    }
  }

  lemma FreshCons(w: World, e: Event, es: seq<Event>)
    requires Enabled(w, e) && FreshHandles(Next(w, e), es)
    requires e.BeginInsert? ==> Fresh(w)
    ensures FreshHandles(w, [e] + es)
  {
    hide Enabled, Next, ReadHeader;
    assert ([e] + es)[1..] == es;
  }

  /** Opening the table after the failure finds the row, and counts it. */
  lemma ReopenAfterLastCall(last: World, a: Ledger) returns (m: World, b: Ledger)
    requires Inv(last, a) && last.ctl.Open? && last.Journal().None? && last.ctl.count + 1 == |a.rows|
    requires HeaderHas(last.table.Now(), |a.rows|)
    ensures Runs(last, [CloseTable] + [OpenTable], m) && Inv(m, b) && b.lo >= a.lo
    ensures Fresh(m) && m.ctl == Open(|a.rows|) && m == last.(ctl := m.ctl) && View(m) == a.rows
  {
    hide Runs, Rows, ReadHeader, HeaderHas, Decode, SlotAt, TrueSize, Holds;
    var closed := last.(ctl := Closed);
    m := last.(ctl := Open(|a.rows|));
    assert last.table.Now() in last.table.images;
    HeldSize(last.table.Now(), a.rows);
    ReadBackHeader(last.table.Now(), |a.rows|);
    b := CloseKeeps(last, a);
    OpenKeeps(closed, b);
    assert Next(closed, OpenTable) == m;
    RunsOne(last, CloseTable);
    Extend(last, [CloseTable], closed, OpenTable, m);
    ViewsAreHeld(m, b);
    assert b.rows == a.rows && a.rows[..|a.rows|] == a.rows;
  }

  /** A row an insert has reported an error for, shown by a fresh handle and by a read-only open. */
  lemma RowInDoubt(w0: World, rows: seq<Slot>, first: Slot) returns (before: seq<Event>, w: World, a: Ledger)
    requires Initial(w0, rows) && TrueOffset(|rows|) + ROW_SIZE <= LONG_MAX && |rows| + 1 <= U64_MAX
    ensures Runs(w0, before, w) && FreshHandles(w0, before) && Inv(w, a)
    ensures Fresh(w) && View(w) == rows + [first] && a.lo >= |rows| && !JournalsAgree(w)
  {
    hide Inv, Initial, Runs, Rows, TrueOffset, Hazard, HeaderHas, ReadHeader, Decode, FreshHandles, Next,
      Enabled, CanInsert;
    InitialRoom(w0, rows);
    var open, b := OpenInitial(w0, rows);
    var last, c := LastCallLeavesJournal(open, b, first);
    w, a := ReopenAfterLastCall(last, c);
    assert w.entries[0] in w.entries;
    var rest := UP_TO_LAST + ([CloseTable] + [OpenTable]);
    before := [OpenTable] + ([BeginInsert(first)] + rest);
    RunsThen(open, [BeginInsert(first)] + UP_TO_LAST, last, [CloseTable] + [OpenTable], w);
    assert [BeginInsert(first)] + UP_TO_LAST + ([CloseTable] + [OpenTable]) == [BeginInsert(first)] + rest;
    RunsOne(w0, OpenTable);
    RunsThen(w0, [OpenTable], open, [BeginInsert(first)] + rest, w);
    RunsFirst(open, BeginInsert(first), rest, w);
    NoInsertsIsFresh(Next(open, BeginInsert(first)), rest);
    FreshCons(open, BeginInsert(first), rest);
    FreshCons(w0, OpenTable, [BeginInsert(first)] + rest);
  }

  lemma InitialRoom(w0: World, rows: seq<Slot>)
    requires Initial(w0, rows) && TrueOffset(|rows|) + ROW_SIZE <= LONG_MAX && |rows| + 1 <= U64_MAX
    ensures CanInsert(|rows|)
  {
  }

  /**
   Where an insert is not atomic. An insert on a new handle fails at its very last call, the
   table is opened again, and both the new handle and a read-only open show the row. The
   next insert begins, and the power fails: the first insert's journal is back, and its
   recovery takes the row away again. Every handle of this run is fresh.
   */
  lemma RowTakenBack(w0: World, rows: seq<Slot>, first: Slot, second: Slot)
    returns (before: seq<Event>, w: World, es: seq<Event>, w': World)
    requires Initial(w0, rows) && TrueOffset(|rows| + 1) + ROW_SIZE <= LONG_MAX && |rows| + 2 <= U64_MAX
    ensures Runs(w0, before, w) && FreshHandles(w0, before) && Fresh(w)
    ensures View(w) == rows + [first] && ReadOnlyView(w) == Some(View(w))
    ensures NoInserts(es) && Runs(w, [BeginInsert(second)] + es, w') && FreshHandles(w, [BeginInsert(second)] + es)
    ensures w'.ctl.Open? && View(w') == rows && !OldOrNew(View(w), second, View(w'))
  {
    hide Inv, Initial, Runs, Rows, TrueOffset, Hazard, HeaderHas, ReadHeader, Decode, FreshHandles, Next,
      Enabled, JournalsAgree;
    OffsetsIncrease(|rows|, |rows| + 1);
    var a;
    before, w, a := RowInDoubt(w0, rows, first);
    assert CanInsert(w.ctl.count);
    hide CanInsert;
    es, w' := OldJournalReturns(w, a, second);
    assert (rows + [first])[..|rows|] == rows;
    RunsFirst(w, BeginInsert(second), es, w');
    NoInsertsIsFresh(Next(w, BeginInsert(second)), es);
    FreshCons(w, BeginInsert(second), es);
  }

  lemma OpenInitial(w0: World, rows: seq<Slot>) returns (open: World, a: Ledger)
    requires Initial(w0, rows)
    ensures Enabled(w0, OpenTable) && open == Next(w0, OpenTable) && open.ctl == Open(|rows|) && Fresh(open)
    ensures Inv(open, a) && View(open) == rows && open.name == w0.name
  {
    hide Inv, Rows, ReadHeader, HeaderHas, Decode, SlotAt, TrueSize, Holds;
    a := Ledger(rows, |rows|, |rows|);
    InitialInv(w0, rows);
    HeldSize(w0.table.Now(), rows);
    ReadBackHeader(w0.table.Now(), |rows|);
    open := w0.(ctl := Open(|rows|));
    OpenKeeps(w0, a);
    ViewsAreHeld(open, a);
    assert rows[..|rows|] == rows;
  }
}
