/**
 What the commit protocol guarantees over whole runs: any number of inserts, error
 returns, reopenings and crashes, crashes during recovery included.
 */
module CrashSafety {
  import opened Bytes
  import opened Layout
  import opened Journal
  import opened Disk
  import opened Protocol

  /** The first `count` slots of a file. */
  function Rows(m: seq<byte>, count: nat): (r: seq<Slot>)
    ensures |r| == count
  {
    if count == 0 then [] else Rows(m, count - 1) + [SlotAt(m, count - 1)]
  }

  lemma {:induction false} RowsAt(m: seq<byte>, count: nat, k: nat)
    requires k < count
    ensures Rows(m, count)[k] == SlotAt(m, k)
  {
    hide SlotAt;
    if k < count - 1 { RowsAt(m, count - 1, k); }
  }

  /** What creating a table leaves on the disk. */
  function NewTable(name: TableName): World {
    World(name, File([Header(0)]), None, [None], Closed, map[])
  }

  /** A run may start there, with no rows. */
  lemma NewTableIsInitial(name: TableName)
    ensures Initial(NewTable(name), []) && ReadHeader(NewTable(name).table.Now()) == Good(0)
    ensures NewTable(name).ctl.Closed? && NewTable(name).temp.None?
  {
    hide Header, SlotAt, ReadHeader, TrueOffset;
    assert HeaderHas(Header(0), 0);
    ReadBackHeader(Header(0), 0);
  }

  lemma RowsOfHeld(m: seq<byte>, rows: seq<Slot>, count: nat)
    requires Holds(m, rows) && count <= |rows|
    ensures Rows(m, count) == rows[..count]
  {
    hide SlotAt, TrueSize;
    forall k | 0 <= k < count ensures Rows(m, count)[k] == rows[k] { RowsAt(m, count, k); }
  }

  /**
   The rows an open exposes: a writable handle's own count, or for a read-only open the
   header's count, refused while a journal is present (TABLE_RECOVERY_REQUIRED).
   */
  function ReadOnlyView(w: World): Option<seq<Slot>> {
    match w.Journal()
    case Some(_) => None
    case None =>
      match ReadHeader(w.table.Now())
      case Good(count) => Some(Rows(w.table.Now(), count))
      case Bad(_) => None
  }

  function View(w: World): seq<Slot>
    requires w.ctl.Open?
  {
    Rows(w.table.Now(), w.ctl.count)
  }

  lemma ViewsAreHeld(w: World, a: Ledger)
    requires Inv(w, a)
    ensures a.lo <= a.top <= |a.rows| <= a.lo + 1
    ensures forall k :: k in w.acked ==> k < a.lo && a.rows[k] == w.acked[k]
    ensures w.ctl.Open? ==> w.ctl.count == a.top && View(w) == a.rows[..a.top]
    ensures w.Journal().None? ==> ReadHeader(w.table.Now()).Good?
    ensures ReadOnlyView(w).Some? ==> a.lo <= |ReadOnlyView(w).value| <= |a.rows|
                                      && ReadOnlyView(w).value == a.rows[..|ReadOnlyView(w).value|]
  {
    hide Header, SlotAt, TrueSize, ReadHeader, HeaderHas;
    var m := w.table.Now();
    assert m in w.table.images;
    if w.ctl.Open? { RowsOfHeld(m, a.rows, a.top); }
    if w.Journal().None? {
      var count := if Resting(w, a.top) then a.top else |a.rows|;
      SizesIncrease(count, |a.rows|);
      ReadBackHeader(m, count);
      RowsOfHeld(m, a.rows, count);
    }
  }

  // ----- whole runs -----

  function SlotOf(e: Event): set<Slot> {
    if e.BeginInsert? then {e.slot} else {}
  }

  function Inserted(es: seq<Event>): set<Slot> {
    if es == [] then {} else SlotOf(es[0]) + Inserted(es[1..])
  }

  function InFlight(w: World): set<Slot> {
    if w.ctl.Inserting? then {w.ctl.slot} else {}
  }

  /** Every row is an old one in its old place or was handed to an insert. */
  ghost predicate Sourced(rows: seq<Slot>, old_rows: seq<Slot>, slots: set<Slot>) {
    forall k :: 0 <= k < |rows| ==> (k < |old_rows| && rows[k] == old_rows[k]) || rows[k] in slots
  }

  lemma InitialInv(w: World, rows: seq<Slot>)
    requires Settled(w, rows) && (w.ctl.Closed? || w.ctl == Open(|rows|))
    requires forall k :: k in w.acked ==> k < |rows| && rows[k] == w.acked[k]
    ensures Inv(w, Ledger(rows, |rows|, |rows|))
  {
    hide Header, SlotAt, TrueSize, HeaderHas;
  }

  lemma StepRemembers(w: World, e: Event, a: Ledger)
    requires Enabled(w, e) && Inv(w, a)
    ensures forall k :: k in w.acked ==> k in Next(w, e).acked && Next(w, e).acked[k] == w.acked[k]
    ensures InFlight(Next(w, e)) <= InFlight(w) + SlotOf(e)
    ensures Next(w, e).name == w.name
  {
    hide Encode, Header, Patch, Resize, SlotAt, TrueOffset, TrueSize, OffsetForRow, ReadHeader, Decode, DiskFits,
      HeaderHas;
    if w.ctl.Inserting? && w.ctl.insertStep.SyncUnlink? {
      assert w.ctl.count !in w.acked by { assert DiskFits(w, a); FreshRowNumber(w, a); }
    }
  }

  lemma FreshRowNumber(w: World, a: Ledger)
    requires DiskFits(w, a)
    ensures forall k :: k in w.acked ==> k < a.top
  {
  }

  lemma {:induction false} RunKeeps(w: World, a: Ledger, es: seq<Event>, w': World) returns (a': Ledger)
    requires Inv(w, a) && Runs(w, es, w') && Careful(w, es)
    ensures Inv(w', a')
    ensures a.lo <= a'.lo && a.lo <= |a.rows| && a.lo <= |a'.rows| && a'.rows[..a.lo] == a.rows[..a.lo]
    ensures Sourced(a'.rows, a.rows, InFlight(w) + Inserted(es))
    ensures forall k :: k in w.acked ==> k in w'.acked && w'.acked[k] == w.acked[k]
    decreases |es|
  {
    hide Inv, Next, Enabled, Hazard, RowsMove;
    assert a.lo <= a.top <= |a.rows| <= a.lo + 1 by { LedgerShape(w, a); }
    if es == [] {
      a' := a;
    } else {
      var n := Next(w, es[0]);
      var b := StepKeeps(w, a, es[0]);
      StepRemembers(w, es[0], a);
      assert Sourced(b.rows, a.rows, InFlight(w));
      a' := RunKeeps(n, b, es[1..], w');
      assert a'.rows[..a.lo] == a'.rows[..b.lo][..a.lo];
      assert a.rows[..a.lo] == b.rows[..a.lo];
      assert b.rows[..a.lo] == b.rows[..b.lo][..a.lo];
    }
  }

  /**
   Durability. Whatever fails or crashes afterwards, a row whose insert returned TABLE_OK
   stays in its place with its bytes in every later view of the table.
   */
  lemma AcknowledgedRowsStay(w0: World, rows: seq<Slot>, es: seq<Event>, w: World)
    requires Initial(w0, rows) && Runs(w0, es, w) && Careful(w0, es)
    ensures w.ctl.Open? ==> forall k :: k in w.acked ==> k < |View(w)| && View(w)[k] == w.acked[k]
    ensures ReadOnlyView(w).Some? ==>
              forall k :: k in w.acked ==> k < |ReadOnlyView(w).value| && ReadOnlyView(w).value[k] == w.acked[k]
    ensures forall k :: 0 <= k < |rows| ==> k in w.acked && w.acked[k] == rows[k]
  {
    hide SlotAt, HeaderHas, Rows, ReadHeader, Inv, Runs, Careful;
    InitialInv(w0, rows);
    var a := RunKeeps(w0, Ledger(rows, |rows|, |rows|), es, w);
    ViewsAreHeld(w, a);
  }

  /**
   Nothing a run leaves behind is ever taken for corruption: a journal that is there passes
   recovery's checks, and without one the header is accepted, so a read-only open is
   refused exactly while recovery is due.
   */
  lemma NothingLooksCorrupt(w0: World, rows: seq<Slot>, es: seq<Event>, w: World)
    requires Initial(w0, rows) && Runs(w0, es, w) && Careful(w0, es)
    ensures w.Journal().Some? ==> Decode(w.Journal().value.Now(), w.name).Some?
    ensures w.Journal().None? ==> ReadHeader(w.table.Now()).Good?
    ensures ReadOnlyView(w).None? <==> w.Journal().Some?
  {
    hide SlotAt, HeaderHas, Rows, Inv, ReadHeader, Decode;
    InitialInv(w0, rows);
    var a := RunKeeps(w0, Ledger(rows, |rows|, |rows|), es, w);
    ViewsAreHeld(w, a);
    if w.Journal().Some? { JournalDecodes(w, a); }
  }

  lemma JournalDecodes(w: World, a: Ledger)
    requires Inv(w, a) && w.Journal().Some?
    ensures Decode(w.Journal().value.Now(), w.name) == Some(a.top)
  {
    hide Decode, SlotAt, HeaderHas;
  }

  /** Once acknowledged, a row number keeps its slot for the rest of the run. */
  lemma AcknowledgementsAreFinal(w0: World, rows: seq<Slot>, es: seq<Event>, w: World, fs: seq<Event>, w': World)
    requires Initial(w0, rows) && Runs(w0, es, w) && Careful(w0, es)
    requires Runs(w, fs, w') && Careful(w, fs)
    ensures forall k :: k in w.acked ==> k in w'.acked && w'.acked[k] == w.acked[k]
  {
    InitialInv(w0, rows);
    var a := RunKeeps(w0, Ledger(rows, |rows|, |rows|), es, w);
    var a' := RunKeeps(w, a, fs, w');
  }

  /** No view ever shows a row that was neither there at the start nor handed to an insert. */
  lemma NoInventedRows(w0: World, rows: seq<Slot>, es: seq<Event>, w: World)
    requires Initial(w0, rows) && Runs(w0, es, w) && Careful(w0, es)
    ensures w.ctl.Open? ==> Sourced(View(w), rows, Inserted(es))
    ensures ReadOnlyView(w).Some? ==> Sourced(ReadOnlyView(w).value, rows, Inserted(es))
  {
    hide SlotAt, HeaderHas, Rows, ReadHeader, Inv, Runs, Careful;
    InitialInv(w0, rows);
    var a := RunKeeps(w0, Ledger(rows, |rows|, |rows|), es, w);
    ViewsAreHeld(w, a);
    assert InFlight(w0) + Inserted(es) == Inserted(es);
  }

  ghost predicate NoInserts(es: seq<Event>) {
    forall e :: e in es ==> !e.BeginInsert?
  }

  lemma {:induction false} NoInsertsIsCareful(w: World, es: seq<Event>)
    requires NoInserts(es)
    ensures Careful(w, es)
    decreases |es|
  {
    if es != [] && Enabled(w, es[0]) { NoInsertsIsCareful(Next(w, es[0]), es[1..]); }
  }

  lemma {:induction false} NoInsertsNothingInserted(es: seq<Event>)
    requires NoInserts(es)
    ensures Inserted(es) == {}
  {
    if es != [] {
      assert es[0] in es;
      NoInsertsNothingInserted(es[1..]);
    }
  }

  lemma InsertStays(w: World, e: Event)
    requires Enabled(w, e) && !e.BeginInsert?
    ensures var n := Next(w, e);
            n.ctl.Inserting? ==> w.ctl.Inserting? && n.ctl.count == w.ctl.count && n.ctl.slot == w.ctl.slot
  {
    hide ReadHeader, Decode, Encode, Header, Patch, Resize, CrashImage;
  }

  // ----- reopening -----

  function Successes(n: nat): (r: seq<Event>)
    ensures |r| == n && forall e :: e in r ==> e == Succeed
  {
    if n == 0 then [] else [Succeed] + Successes(n - 1)
  }

  /** A writable open whose every call succeeds. */
  function Reopening(w: World): seq<Event> {
    if w.Journal().Some? then [OpenTable] + Successes(6) else [OpenTable]
  }

  lemma RunsOne(w: World, e: Event)
    requires Enabled(w, e)
    ensures Runs(w, [e], Next(w, e))
  {
    hide Next, Enabled;
    assert [e][1..] == [];
  }

  lemma {:induction false} RunsThen(w: World, es: seq<Event>, m: World, fs: seq<Event>, w': World)
    requires Runs(w, es, m) && Runs(m, fs, w')
    ensures Runs(w, es + fs, w')
    decreases |es|
  {
    hide Next, Enabled;
    if es == [] {
      assert es + fs == fs;
    } else {
      assert (es + fs)[1..] == es[1..] + fs;
      RunsThen(Next(w, es[0]), es[1..], m, fs, w');
    }
  }

  /** The rest of a recovery, from any of its calls on. */
  lemma {:induction false} RecoveryCompletes(w: World, a: Ledger, left: nat) returns (w': World, a': Ledger)
    requires Inv(w, a) && w.ctl.Recovering? && left == CallsLeft(w.ctl.recoverStep)
    ensures Runs(w, Successes(left), w')
    ensures w'.ctl == Open(w.ctl.count) && Inv(w', a') && Settled(w', a'.rows) && a'.top == w.ctl.count == |a'.rows|
    ensures |w'.table.Now()| == TrueSize(w.ctl.count)
    decreases left
  {
    hide Encode, Header, Patch, Resize, SlotAt, TrueOffset, TrueSize, OffsetForRow, ReadHeader, Decode, HeaderHas,
      Holds;
    hide Inv, Settled, Grows, InsertSucceeds, RowsMove;
    var n := RecoverSucceeds(w);
    var b := StepKeeps(w, a, Succeed);
    assert Next(w, Succeed) == n;
    if w.ctl.recoverStep.SyncDrop? {
      w' := n;
      a' := SettledAfterDrop(w, a);
      RunsOne(w, Succeed);
      assert Successes(1) == [Succeed];
    } else {
      w', a' := RecoveryCompletes(n, b, left - 1);
      assert Successes(left)[1..] == Successes(left - 1);
    }
  }

  function CallsLeft(s: RecoverStep): nat {
    match s
    case Restore => 6
    case SyncRestore => 5
    case Truncate => 4
    case SyncTruncate => 3
    case DropJournal => 2
    case SyncDrop => 1
  }

  lemma SettledAfterDrop(w: World, a: Ledger) returns (a': Ledger)
    requires Inv(w, a) && w.ctl.Recovering? && w.ctl.recoverStep.SyncDrop?
    ensures var n := RecoverSucceeds(w);
            && n.ctl == Open(w.ctl.count) && Inv(n, a') && Settled(n, a'.rows) && a'.top == w.ctl.count == |a'.rows|
            && |n.table.Now()| == TrueSize(w.ctl.count)
  {
    hide Encode, Header, Patch, Resize, SlotAt, TrueOffset, TrueSize, OffsetForRow, ReadHeader, Decode, HeaderHas;
    a' := RecoverStepKeeps(w, a);
    var n := RecoverSucceeds(w);
    assert n.table.Now() in n.table.images;
  }

  lemma ReopenWithoutJournal(w: World, a: Ledger)
    requires Inv(w, a) && w.ctl.Closed? && w.Journal().None?
    ensures Runs(w, [OpenTable], Opened(w)) && Opened(w).ctl.Open?
    ensures ReadHeader(w.table.Now()) == Good(Opened(w).ctl.count)
  {
    hide Encode, ReadHeader, Decode, DiskFits;
    OpenKeeps(w, a);
    RunsOne(w, OpenTable);
  }

  lemma ReopenWithJournal(w: World, a: Ledger) returns (w': World, rows: seq<Slot>)
    requires Inv(w, a) && w.ctl.Closed? && w.Journal().Some?
    ensures Runs(w, [OpenTable] + Successes(6), w') && w'.ctl.Open?
    ensures Settled(w', rows) && View(w') == rows && w'.ctl.count == |rows|
    ensures |w'.table.Now()| == TrueSize(|rows|)
    ensures Decode(w.Journal().value.Now(), w.name) == Some(w'.ctl.count)
  {
    hide Encode, ReadHeader, Decode, DiskFits, Rows, Settled;
    OpenKeeps(w, a);
    RunsOne(w, OpenTable);
    var n := StartOpen(w);
    assert n.ctl.Recovering? && n.ctl.recoverStep.Restore?;
    var a';
    w', a' := RecoveryCompletes(n, a, 6);
    RunsThen(w, [OpenTable], n, Successes(6), w');
    ViewsAreHeld(w', a');
    assert a'.rows[..|a'.rows|] == a'.rows;
    rows := a'.rows;
  }

  /**
   Recovery always has something to work with: wherever a run stops with the table closed,
   a writable open is not refused as corrupt, and if its calls succeed it ends with a
   handle on the header's own count; after a recovery, on a settled table.
   */
  lemma ReopeningSucceeds(w0: World, rows: seq<Slot>, es: seq<Event>, w: World) returns (w': World)
    requires Initial(w0, rows) && Runs(w0, es, w) && Careful(w0, es) && w.ctl.Closed?
    ensures Runs(w, Reopening(w), w') && w'.ctl.Open?
    ensures ReadHeader(w'.table.Now()) == Good(w'.ctl.count)
    ensures w.Journal().Some? ==> Settled(w', View(w')) && |w'.table.Now()| == TrueSize(w'.ctl.count)
  {
    hide ReadHeader, HeaderHas, Inv, Runs, Careful, Rows;
    InitialInv(w0, rows);
    var a := RunKeeps(w0, Ledger(rows, |rows|, |rows|), es, w);
    if w.Journal().None? {
      w' := Opened(w);
      ReopenWithoutJournal(w, a);
    } else {
      var view;
      w', view := ReopenWithJournal(w, a);
      ReadBackHeader(w'.table.Now(), |view|);
    }
  }
}
