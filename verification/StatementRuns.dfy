/**
 One statement within a run: what the events it adds to the history do to what is shown and
 to what was acknowledged before.
 */
module StatementRuns {
  import opened Bytes
  import opened Journal
  import opened Disk
  import opened Protocol
  import opened CrashSafety
  import opened StaleHandle
  import opened Atomicity

  /** The history has gone on, without another insert. */
  ghost predicate NoInsertSince(before: seq<Event>, after: seq<Event>) {
    before <= after && forall i :: |before| <= i < |after| ==> !after[i].BeginInsert?
  }

  /** The history has gone on, with at most one more insert, and that of this slot. */
  ghost predicate OneInsertSince(before: seq<Event>, after: seq<Event>, slot: Slot) {
    NoInsertSince(before, after)
    || exists mid :: NoInsertSince(before, mid) && NoInsertSince(mid + [BeginInsert(slot)], after)
  }

  lemma NoInsertTwice(a: seq<Event>, b: seq<Event>, c: seq<Event>)
    requires NoInsertSince(a, b) && NoInsertSince(b, c)
    ensures NoInsertSince(a, c)
  {
    forall i | |a| <= i < |c| ensures !c[i].BeginInsert? {
      if i < |b| { assert c[i] == b[i]; }
    }
  }

  lemma OneInsertMore(a: seq<Event>, b: seq<Event>, c: seq<Event>, d: seq<Event>, slot: Slot)
    requires NoInsertSince(a, b) && OneInsertSince(b, c, slot) && NoInsertSince(c, d)
    ensures OneInsertSince(a, d, slot) && a <= d
  {
    hide NoInsertSince;
    assert a <= d by { Prefixes(a, b, c, d, slot); }
    if NoInsertSince(b, c) {
      NoInsertTwice(a, b, c);
      NoInsertTwice(a, c, d);
    } else {
      var mid :| NoInsertSince(b, mid) && NoInsertSince(mid + [BeginInsert(slot)], c);
      NoInsertTwice(a, b, mid);
      NoInsertTwice(mid + [BeginInsert(slot)], c, d);
    }
  }

  lemma Prefixes(a: seq<Event>, b: seq<Event>, c: seq<Event>, d: seq<Event>, slot: Slot)
    requires NoInsertSince(a, b) && OneInsertSince(b, c, slot) && NoInsertSince(c, d)
    ensures a <= b <= c <= d
  {
  }

  // ----- runs, cut and joined -----

  lemma {:induction false} RunsSplit(w: World, es: seq<Event>, m: World, fs: seq<Event>, w': World)
    requires Runs(w, es, m) && Runs(w, es + fs, w')
    ensures Runs(m, fs, w')
    decreases |es|
  {
    hide Next, Enabled;
    if es == [] {
      assert es + fs == fs;
    } else {
      assert (es + fs)[1..] == es[1..] + fs;
      RunsSplit(Next(w, es[0]), es[1..], m, fs, w');
    }
  }

  /** A history leads to one world only. */
  lemma SameWorld(w: World, es: seq<Event>, m: World, m': World)
    requires Runs(w, es, m) && Runs(w, es, m')
    ensures m == m'
  {
    assert es + [] == es;
    RunsSplit(w, es, m, [], m');
  }

  lemma {:induction false} CarefulSuffix(w: World, es: seq<Event>, m: World, fs: seq<Event>)
    requires Runs(w, es, m) && Careful(w, es + fs)
    ensures Careful(m, fs)
    decreases |es|
  {
    hide Next, Enabled, Hazard;
    if es == [] {
      assert es + fs == fs;
    } else {
      assert (es + fs)[1..] == es[1..] + fs;
      CarefulSuffix(Next(w, es[0]), es[1..], m, fs);
    }
  }

  // ----- what a statement leaves -----

  /** After an insert on a fresh handle, however it went on: see Atomicity.Follows. */
  lemma AfterInsert(start: World, rows: seq<Slot>, h: seq<Event>, w: World, slot: Slot, h': seq<Event>, w': World)
    requires Initial(start, rows) && Runs(start, h, w) && FreshHandles(start, h) && Fresh(w)
    requires NoInsertSince(h + [BeginInsert(slot)], h') && Runs(start, h', w')
    ensures w'.ctl.Open? ==> Follows(w, slot, View(w'))
    ensures ReadOnlyView(w').Some? ==> Follows(w, slot, ReadOnlyView(w').value)
    ensures w.ctl.count in w'.acked && ReadOnlyView(w').Some? ==> ReadOnlyView(w').value == View(w) + [slot]
  {
    hide Inv, Runs, Rows, ReadHeader, FreshHandles, Careful, Initial;
    FreshHandlesAreCareful(start, h);
    var a := LedgerOf(start, rows, h, w);
    var rest := h'[|h| + 1..];
    assert NoInserts(rest);
    assert h' == h + ([BeginInsert(slot)] + rest);
    RunsSplit(start, h, w, [BeginInsert(slot)] + rest, w');
    FollowsFresh(w, a, slot, rest, w');
    FreshLedger(w, a);
    LaterAcked(w, a, slot, rest, w');
  }

  /** What is shown follows from the handle and the slot of the last insert that was begun. */
  ghost predicate LastInsertShows(start: World, h: seq<Event>, view: Option<seq<Slot>>) {
    forall j: nat, w: World ::
      j < |h| && h[j].BeginInsert? && NoInsertSince(h[..j + 1], h) && Runs(start, h[..j], w) && view.Some? ==>
        w.ctl.Open? && Follows(w, h[j].slot, view.value)
  }

  lemma LastInsertOf(start: World, rows: seq<Slot>, h: seq<Event>, w': World)
    requires Initial(start, rows) && Runs(start, h, w') && FreshHandles(start, h)
    ensures LastInsertShows(start, h, ReadOnlyView(w'))
  {
    hide Runs, FreshHandles, Initial, Fresh, Follows, ReadOnlyView;
    forall j: nat, w: World |
      j < |h| && h[j].BeginInsert? && NoInsertSince(h[..j + 1], h) && Runs(start, h[..j], w) && ReadOnlyView(w').Some?
      ensures w.ctl.Open? && Follows(w, h[j].slot, ReadOnlyView(w').value)
    {
      assert h == h[..j] + h[j..] && h[..j + 1] == h[..j] + [BeginInsert(h[j].slot)];
      RunsSplit(start, h[..j], w, h[j..], w');
      FreshSuffix(start, h[..j], w, h[j..]);
      FreshHead(w, h[j..], w');
      FreshPrefix(start, h[..j], h[j..]);
      AfterInsert(start, rows, h[..j], w, h[j].slot, h, w');
    }
  }

  lemma FreshHead(w: World, es: seq<Event>, w': World)
    requires es != [] && es[0].BeginInsert? && FreshHandles(w, es) && Runs(w, es, w')
    ensures Fresh(w) && w.ctl.Open?
  {
    hide ReadHeader, Next;
  }

  lemma {:induction false} FreshSuffix(w: World, es: seq<Event>, m: World, fs: seq<Event>)
    requires Runs(w, es, m) && FreshHandles(w, es + fs)
    ensures FreshHandles(m, fs)
    decreases |es|
  {
    hide Next, Enabled, Fresh;
    if es == [] {
      assert es + fs == fs;
    } else {
      assert (es + fs)[1..] == es[1..] + fs;
      FreshSuffix(Next(w, es[0]), es[1..], m, fs);
    }
  }

  lemma {:induction false} FreshPrefix(w: World, es: seq<Event>, fs: seq<Event>)
    requires FreshHandles(w, es + fs)
    ensures FreshHandles(w, es)
    decreases |es|
  {
    hide Next, Enabled, Fresh;
    if es != [] {
      assert (es + fs)[1..] == es[1..] + fs;
      if Enabled(w, es[0]) { FreshPrefix(Next(w, es[0]), es[1..], fs); }
    }
  }

  lemma LedgerOf(start: World, rows: seq<Slot>, h: seq<Event>, w: World) returns (a: Ledger)
    requires Initial(start, rows) && Runs(start, h, w) && Careful(start, h)
    ensures Inv(w, a)
  {
    hide Inv, Runs, Careful;
    InitialInv(start, rows);
    a := RunKeeps(start, Ledger(rows, |rows|, |rows|), h, w);
  }

  /** Whatever had been acknowledged at an earlier moment of a run still is at a later one. */
  lemma StillAcknowledged(start: World, rows: seq<Slot>, h: seq<Event>, since: nat, told: World, k: nat, moment: World)
    requires Initial(start, rows) && since <= k <= |h| && FreshHandles(start, h[..k])
    requires Runs(start, h[..since], told) && Runs(start, h[..k], moment)
    ensures forall n :: n in told.acked ==> n in moment.acked && moment.acked[n] == told.acked[n]
  {
    hide Inv, Runs, Careful, FreshHandles, Initial;
    FreshHandlesAreCareful(start, h[..k]);
    assert h[..k] == h[..since] + h[since..k];
    RunsSplit(start, h[..since], told, h[since..k], moment);
    CarefulSuffix(start, h[..since], told, h[since..k]);
    CarefulPrefix(start, h[..since], h[since..k]);
    AcknowledgementsAreFinal(start, rows, h[..since], told, h[since..k], moment);
  }

  lemma {:induction false} CarefulPrefix(w: World, es: seq<Event>, fs: seq<Event>)
    requires Careful(w, es + fs)
    ensures Careful(w, es)
    decreases |es|
  {
    hide Next, Enabled, Hazard;
    if es != [] {
      assert (es + fs)[1..] == es[1..] + fs;
      if Enabled(w, es[0]) { CarefulPrefix(Next(w, es[0]), es[1..], fs); }
    }
  }
}
