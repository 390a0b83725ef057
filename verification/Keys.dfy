/**
 Rows as the executor sees them, and the primary key over whole runs.
 */
module Keys {
  import opened Bytes
  import opened Layout
  import opened Journal
  import opened Disk
  import opened Protocol
  import opened CrashSafety
  import opened StaleHandle

  /** A row in memory: the name buffer is 32 bytes. */
  datatype Row = Row(id: int32, name: seq<byte>)

  /** `storage_serialize_row`. */
  function Serialize(row: Row): (s: Slot)
    requires |row.name| == NAME_SIZE
  {
    PutU32(ToU32(row.id)) + row.name
  }

  /** `storage_deserialize_row`: the last byte of the name is forced to NUL. */
  function Deserialize(slot: Slot): (row: Row)
    ensures |row.name| == NAME_SIZE
  {
    Row(FromU32(GetU32(slot[..4])), slot[4..35] + [0])
  }

  /** A row whose name is a C string comes back from its slot unchanged. */
  lemma DeserializeSerialize(row: Row)
    requires |row.name| == NAME_SIZE && row.name[31] == 0
    ensures Deserialize(Serialize(row)) == row
  {
    var s := Serialize(row);
    assert s[..4] == PutU32(ToU32(row.id));
    FieldsRoundTrip(ToU32(row.id), 0);
    assert s[4..35] + [0] == row.name;
  }

  /** A slot is the id as a 32-bit two's complement number, lowest byte first, and then the name. */
  lemma SlotLayout(row: Row, i: nat)
    requires |row.name| == NAME_SIZE && i < 36
    ensures var word := if row.id < 0 then row.id + 0x1_0000_0000 else row.id;
            Serialize(row)[i] == if i < 4 then (word / Pow256(i)) % 256 else row.name[i - 4]
  {
    hide PutLe, Pow256;
    if i < 4 { PutLeByte(ToU32(row.id), 4, i); }
  }

  /** The other way round: every slot comes back from its row, but for the forced NUL. */
  lemma SerializeDeserialize(slot: Slot)
    ensures Serialize(Deserialize(slot)) == slot[35 := 0]
  {
    hide PutLe, GetLe;
    assert ToU32(FromU32(GetU32(slot[..4]))) == GetU32(slot[..4]);
    assert slot == slot[..4] + slot[4..];
  }

  function IdOf(slot: Slot): int32 {
    Deserialize(slot).id
  }

  function SlotIds(slots: seq<Slot>): (ids: seq<int32>)
    ensures |ids| == |slots| && forall k :: 0 <= k < |slots| ==> ids[k] == IdOf(slots[k])
  {
    seq(|slots|, k requires 0 <= k < |slots| => IdOf(slots[k]))
  }

  ghost predicate UniqueIds(rows: seq<Slot>) {
    forall i, j :: 0 <= i < j < |rows| ==> IdOf(rows[i]) != IdOf(rows[j])
  }

  ghost predicate NewId(rows: seq<Slot>, id: int32) {
    forall k :: 0 <= k < |rows| ==> IdOf(rows[k]) != id
  }

  /** The executor's rule: look the id up in the handle's rows before inserting it. */
  ghost predicate ChecksIds(w: World, es: seq<Event>)
    decreases |es|
  {
    es == [] || (Enabled(w, es[0]) ==>
                   && (es[0].BeginInsert? ==> NewId(View(w), IdOf(es[0].slot)))
                   && ChecksIds(Next(w, es[0]), es[1..]))
  }

  ghost predicate KeysFit(w: World, a: Ledger) {
    && UniqueIds(a.rows)
    && (w.ctl.Inserting? ==> w.ctl.count <= |a.rows| && NewId(a.rows[..w.ctl.count], IdOf(w.ctl.slot)))
  }

  lemma StepKeepsKeys(w: World, a: Ledger, e: Event) returns (a': Ledger)
    requires Inv(w, a) && KeysFit(w, a) && Enabled(w, e)
    requires e.BeginInsert? ==> !Hazard(w) && NewId(View(w), IdOf(e.slot))
    ensures Inv(Next(w, e), a') && KeysFit(Next(w, e), a')
  {
    hide Inv, Hazard, Next, Enabled, IdOf, Rows, RowsMove;
    a' := StepKeeps(w, a, e);
    var n := Next(w, e);
    LedgerShape(w, a); LedgerShape(n, a');
    if e.BeginInsert? {
      ViewsAreHeld(w, a);
      BeginLedger(w, a, e);
      a' := a;
    } else {
      if w.ctl.Inserting? { InsertingCount(w, a); }
      if n.ctl.Inserting? {
        InsertingCount(n, a');
        InsertStays(w, e);
        assert a'.rows[..n.ctl.count] == a.rows[..n.ctl.count];
      }
    }
  }

  lemma BeginLedger(w: World, a: Ledger, e: Event)
    requires Inv(w, a) && e.BeginInsert? && Enabled(w, e) && !Hazard(w)
    ensures Inv(Next(w, e), a) && Next(w, e).ctl == Inserting(MakeTemp, w.ctl.count, e.slot) && w.ctl.Open?
  {
    hide Inv, Hazard, CanInsert;
    BeginKeeps(w, a, e.slot);
  }

  lemma InsertingCount(w: World, a: Ledger)
    requires Inv(w, a) && w.ctl.Inserting?
    ensures w.ctl.count == a.top
  {
    hide DiskFits;
  }

  lemma {:induction false} RunKeepsKeys(w: World, a: Ledger, es: seq<Event>, w': World) returns (a': Ledger)
    requires Inv(w, a) && KeysFit(w, a) && Runs(w, es, w') && Careful(w, es) && ChecksIds(w, es)
    ensures Inv(w', a') && KeysFit(w', a')
    decreases |es|
  {
    hide Inv, Hazard, Next, Enabled, KeysFit, NewId;
    if es == [] {
      a' := a;
    } else {
      var b := StepKeepsKeys(w, a, es[0]);
      a' := RunKeepsKeys(Next(w, es[0]), b, es[1..], w');
    }
  }

  /**
   The primary key survives: when every insert begins on a fresh handle with an id its rows
   do not have, no run of errors and crashes ever shows two rows with the same id.
   */
  lemma IdsStayUnique(w0: World, rows: seq<Slot>, es: seq<Event>, w: World)
    requires Initial(w0, rows) && UniqueIds(rows)
    requires Runs(w0, es, w) && FreshHandles(w0, es) && ChecksIds(w0, es)
    ensures w.ctl.Open? ==> UniqueIds(View(w))
    ensures ReadOnlyView(w).Some? ==> UniqueIds(ReadOnlyView(w).value)
  {
    hide Inv, Runs, FreshHandles, Careful, ChecksIds, Rows, IdOf, ReadHeader;
    InitialInv(w0, rows);
    FreshHandlesAreCareful(w0, es);
    var a := RunKeepsKeys(w0, Ledger(rows, |rows|, |rows|), es, w);
    ViewsAreHeld(w, a);
    LedgerShape(w, a);
  }
}
