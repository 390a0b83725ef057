/**
 What a POSIX file and a directory entry can look like after a crash, and the table file
 header kept in one (src/storage.c). System calls themselves are not part of this model:
 they appear as changes to the contents below.
 */
module Disk {
  import opened Bytes
  import opened Layout
  import opened Journal

  // ----- files -----

  /**
   A file is the list of contents it has had since it was last synchronised: the first is
   on stable storage, the last is what a reader sees now.
   */
  datatype RawFile = File(images: seq<seq<byte>>) {
    function Now(): seq<byte>
      requires |images| > 0
    {
      images[|images| - 1]
    }
  }

  type File = f: RawFile | |f.images| > 0 witness File([[]])

  /** The byte at position i, zero past the end as in a file hole. */
  function At(m: seq<byte>, i: nat): byte {
    if i < |m| then m[i] else 0
  }

  /**
   What may be found in the file after a crash. Every byte is taken, independently of the
   others, from some content since the last synchronisation, so unsynchronised writes may
   survive in any subset and may be torn between any two bytes; the length is anything
   between the shortest and the longest of those contents.
   */
  ghost predicate CrashImage(f: File, t: seq<byte>) {
    && (exists k :: 0 <= k < |f.images| && |f.images[k]| <= |t|)
    && (exists k :: 0 <= k < |f.images| && |t| <= |f.images[k]|)
    && forall i :: 0 <= i < |t| ==> ByteSurvives(f, i, t[i])
  }

  ghost predicate ByteSurvives(f: File, i: nat, b: byte) {
    exists k :: 0 <= k < |f.images| && At(f.images[k], i) == b
  }

  /** A write of `bytes` at `offset`; a gap before it reads as zeros. */
  function Patch(m: seq<byte>, offset: nat, bytes: seq<byte>): (r: seq<byte>)
    ensures forall i: nat :: At(r, i) == if offset <= i < offset + |bytes| then bytes[i - offset] else At(m, i)
    ensures bytes != [] ==> |r| == if |m| < offset + |bytes| then offset + |bytes| else |m|
    ensures bytes == [] ==> r == m
  {
    if bytes == [] then m else
    Resize(m, if |m| < offset then |m| else offset)
    + Zeros(if |m| < offset then offset - |m| else 0)
    + bytes
    + (if offset + |bytes| < |m| then m[offset + |bytes|..] else [])
  }

  lemma PatchEmpty(bytes: seq<byte>)
    ensures Patch([], 0, bytes) == bytes
  {
    assert forall i :: 0 <= i < |bytes| ==> At(Patch([], 0, bytes), i) == bytes[i];
  }

  /** The effect of ftruncate. */
  function Resize(m: seq<byte>, length: nat): (r: seq<byte>)
    ensures |r| == length
    ensures forall i: nat :: At(r, i) == if i < length then At(m, i) else 0
  {
    if length <= |m| then m[..length] else m + Zeros(length - |m|)
  }

  function Changed(f: File, m: seq<byte>): (r: File)
    ensures r.Now() == m
    ensures forall x :: x in r.images <==> x in f.images || x == m
  {
    File(f.images + [m])
  }

  function Synced(f: File): (r: File)
    ensures r.Now() == f.Now()
  {
    File([f.Now()])
  }

  /**
   The independent reading of a crash: take any of the writes issued since the last
   synchronisation, each reduced to any set of its bytes, and apply them to the durable
   content. Whatever results is a crash image.
   */
  datatype Torn = Torn(offset: nat, bytes: seq<byte>, kept: set<nat>)

  function AllWrites(durable: seq<byte>, writes: seq<Torn>): (r: File)
    decreases |writes|
  {
    if writes == [] then File([durable]) else
    var before := AllWrites(durable, writes[..|writes| - 1]);
    var w := writes[|writes| - 1];
    Changed(before, Patch(before.Now(), w.offset, w.bytes))
  }

  function Survivors(durable: seq<byte>, writes: seq<Torn>, i: nat): byte
    decreases |writes|
  {
    if writes == [] then At(durable, i) else
    var w := writes[|writes| - 1];
    if w.offset <= i < w.offset + |w.bytes| && i in w.kept then w.bytes[i - w.offset]
    else Survivors(durable, writes[..|writes| - 1], i)
  }

  lemma {:induction false} SurvivingByte(durable: seq<byte>, writes: seq<Torn>, i: nat)
    ensures ByteSurvives(AllWrites(durable, writes), i, Survivors(durable, writes, i))
    decreases |writes|
  {
    var f := AllWrites(durable, writes);
    var b := Survivors(durable, writes, i);
    if writes == [] {
      assert At(f.images[0], i) == b;
    } else {
      var before := AllWrites(durable, writes[..|writes| - 1]);
      var w := writes[|writes| - 1];
      if w.offset <= i < w.offset + |w.bytes| && i in w.kept {
        assert At(f.images[|f.images| - 1], i) == b;
      } else {
        SurvivingByte(durable, writes[..|writes| - 1], i);
        var k :| 0 <= k < |before.images| && At(before.images[k], i) == b;
        assert f.images[k] == before.images[k];
      }
    }
  }

  lemma TornWritesAreCrashImages(durable: seq<byte>, writes: seq<Torn>, t: seq<byte>)
    requires |durable| <= |t| <= |AllWrites(durable, writes).Now()|
    requires forall i :: 0 <= i < |t| ==> t[i] == Survivors(durable, writes, i)
    ensures CrashImage(AllWrites(durable, writes), t)
  {
    var f := AllWrites(durable, writes);
    FirstImage(durable, writes);
    assert |f.images[0]| <= |t|;
    assert |t| <= |f.images[|f.images| - 1]|;
    forall i | 0 <= i < |t| ensures ByteSurvives(f, i, t[i]) {
      SurvivingByte(durable, writes, i);
    }
  }

  lemma {:induction false} FirstImage(durable: seq<byte>, writes: seq<Torn>)
    ensures AllWrites(durable, writes).images[0] == durable
    decreases |writes|
  {
    if writes != [] { FirstImage(durable, writes[..|writes| - 1]); }
  }

  // ----- the table header -----

  const TABLE_MAGIC: uint32 := 0x544C5153
  const TABLE_VERSION: uint32 := 1

  datatype TableStatus =
    | TableOk
    | TableNotFound
    | TableIoError
    | TableCorrupt
    | TableIncompatible
    | TableInvalidOffset
    | TableReadOnly
    | TableRecoveryRequired
    | TableDurabilityError

  datatype HeaderRead = Good(count: uint64) | Bad(status: TableStatus)

  function HeaderPrefix(): (r: seq<byte>)
    ensures |r| == 24
  {
    PutU32(TABLE_MAGIC) + PutU32(TABLE_VERSION) + PutU32(HEADER_SIZE) + PutU32(PAGE_SIZE)
    + PutU32(ROW_SIZE) + PutU32(0)
  }

  /** What `write_header` writes. */
  function Header(count: uint64): (r: seq<byte>)
    ensures |r| == HEADER_SIZE
  {
    HeaderPrefix() + PutU64(count) + Zeros(32)
  }

  /** A table's header: "SQLT", version 1, the sizes of header, page and row, zero, the count, and zeros. */
  lemma HeaderBytes(count: uint64)
    ensures HeaderPrefix() ==
            [0x53, 0x51, 0x4C, 0x54, 1, 0, 0, 0, 64, 0, 0, 0, 0, 16, 0, 0, 36, 0, 0, 0, 0, 0, 0, 0]
    ensures Header(count) == HeaderPrefix() + PutU64(count) + Zeros(32)
  {
    hide HeaderPrefix, PutLe;
    PrefixBytes();
  }

  lemma PrefixBytes()
    ensures HeaderPrefix() ==
            [0x53, 0x51, 0x4C, 0x54, 1, 0, 0, 0, 64, 0, 0, 0] + [0, 16, 0, 0, 36, 0, 0, 0, 0, 0, 0, 0]
  {
    hide PutLe, PutU32;
    FourBytes(0x53, 0x51, 0x4C, 0x54);
    FourBytes(1, 0, 0, 0);
    FourBytes(64, 0, 0, 0);
    FourBytes(0, 16, 0, 0);
    FourBytes(36, 0, 0, 0);
    FourBytes(0, 0, 0, 0);
    var a := PutU32(TABLE_MAGIC) + PutU32(TABLE_VERSION) + PutU32(HEADER_SIZE);
    var b := PutU32(PAGE_SIZE) + PutU32(ROW_SIZE) + PutU32(0);
    assert a == [0x53, 0x51, 0x4C, 0x54, 1, 0, 0, 0, 64, 0, 0, 0];
    assert b == [0, 16, 0, 0, 36, 0, 0, 0, 0, 0, 0, 0];
    assert HeaderPrefix() == a + b;
  }

  /** `read_and_validate_header`, check by check. */
  function ReadHeader(m: seq<byte>): (r: HeaderRead)
    ensures r.Bad? ==> r.status.TableIoError? || r.status.TableCorrupt? || r.status.TableIncompatible?
  {
    if |m| > LONG_MAX then Bad(TableIoError) else
    if |m| < HEADER_SIZE then Bad(TableIncompatible) else
    if GetU32(m[0..4]) != TABLE_MAGIC then Bad(TableIncompatible) else
    if GetU32(m[4..8]) != TABLE_VERSION then Bad(TableIncompatible) else
    if GetU32(m[8..12]) != HEADER_SIZE then Bad(TableIncompatible) else
    if GetU32(m[12..16]) != PAGE_SIZE then Bad(TableIncompatible) else
    if GetU32(m[16..20]) != ROW_SIZE then Bad(TableIncompatible) else
    if GetU32(m[20..24]) != 0 then Bad(TableCorrupt) else
    match LogicalSize(GetU64(m[24..32]))
    case None => Bad(TableCorrupt)
    case Some(minimum) =>
      if |m| < minimum then Bad(TableCorrupt) else Good(GetU64(m[24..32]))
  }

  ghost predicate HeaderHas(m: seq<byte>, count: uint64) {
    |m| >= HEADER_SIZE && forall i :: 0 <= i < HEADER_SIZE ==> At(m, i) == Header(count)[i]
  }

  /** A written header reads back, provided the rows it announces fit in the file. */
  lemma ReadBackHeader(m: seq<byte>, count: uint64)
    requires HeaderHas(m, count) && TrueSize(count) <= |m| <= LONG_MAX
    ensures ReadHeader(m) == Good(count)
  {
    var h := Header(count);
    assert m[..64] == h;
    assert m[..24] == h[..24] == HeaderPrefix();
    assert m[24..32] == m[..64][24..32] == h[24..32] == PutU64(count);
    ReadPrefix(m);
    FieldsRoundTrip(0, count);
  }

  /** The checks accept exactly the header that is written for the count, before rows that are all there. */
  lemma HeaderExact(m: seq<byte>, count: uint64)
    ensures ReadHeader(m) == Good(count) <==>
            && HEADER_SIZE <= |m| <= LONG_MAX && TrueSize(count) <= |m|
            && m[..24] == HeaderPrefix() && m[24..32] == PutU64(count)
  {
    hide PutLe, GetLe, TrueSize, HeaderPrefix;
    FieldsRoundTrip(0, count);
    if |m| >= HEADER_SIZE { PrefixExact(m); }
  }

  /** Why a header is refused: no table of this kind, or one whose reserved field or rows are wrong. */
  lemma HeaderRefused(m: seq<byte>)
    ensures ReadHeader(m) == Bad(TableIoError) <==> |m| > 0x7FFF_FFFF_FFFF_FFFF
    ensures ReadHeader(m) == Bad(TableIncompatible) <==>
            |m| <= 0x7FFF_FFFF_FFFF_FFFF && (|m| < 64 || m[..20] != HeaderPrefix()[..20])
    ensures ReadHeader(m) == Bad(TableCorrupt) <==>
            && 64 <= |m| <= 0x7FFF_FFFF_FFFF_FFFF && m[..20] == HeaderPrefix()[..20]
            && (m[20..24] != [0, 0, 0, 0] || |m| < TrueSize(GetU64(m[24..32])))
  {
    hide PutLe, GetLe, TrueSize, HeaderPrefix;
    if |m| >= HEADER_SIZE {
      FirstFields(m);
      FieldsRoundTrip(0, 0);
      FourBytes(0, 0, 0, 0);
    }
  }

  lemma FirstFields(m: seq<byte>)
    requires |m| >= HEADER_SIZE
    ensures m[..20] == HeaderPrefix()[..20] <==>
            && GetU32(m[0..4]) == TABLE_MAGIC && GetU32(m[4..8]) == TABLE_VERSION
            && GetU32(m[8..12]) == HEADER_SIZE && GetU32(m[12..16]) == PAGE_SIZE && GetU32(m[16..20]) == ROW_SIZE
  {
    hide PutLe, GetLe, HeaderPrefix;
    PrefixApart();
    var p, a, b := HeaderPrefix(), m[..20], HeaderPrefix()[..20];
    assert a == m[0..4] + m[4..8] + m[8..12] + m[12..16] + m[16..20];
    assert b == p[0..4] + p[4..8] + p[8..12] + p[12..16] + p[16..20];
    assert a[0..4] == m[0..4] && a[4..8] == m[4..8] && a[8..12] == m[8..12] && a[12..16] == m[12..16];
    assert b[0..4] == p[0..4] && b[4..8] == p[4..8] && b[8..12] == p[8..12] && b[12..16] == p[12..16];
    assert a[16..20] == m[16..20] && b[16..20] == p[16..20];
    FieldsRoundTrip(TABLE_MAGIC, 0); FieldsRoundTrip(TABLE_VERSION, 0);
    FieldsRoundTrip(HEADER_SIZE, 0); FieldsRoundTrip(PAGE_SIZE, 0); FieldsRoundTrip(ROW_SIZE, 0);
  }

  lemma PrefixExact(m: seq<byte>)
    requires |m| >= HEADER_SIZE
    ensures m[..24] == HeaderPrefix() <==>
            && GetU32(m[0..4]) == TABLE_MAGIC && GetU32(m[4..8]) == TABLE_VERSION
            && GetU32(m[8..12]) == HEADER_SIZE && GetU32(m[12..16]) == PAGE_SIZE
            && GetU32(m[16..20]) == ROW_SIZE && GetU32(m[20..24]) == 0
  {
    hide PutLe, GetLe;
    if m[..24] == HeaderPrefix() { ReadPrefix(m); }
    assert m[..24] == m[0..4] + m[4..8] + m[8..12] + m[12..16] + m[16..20] + m[20..24];
  }

  lemma PrefixApart()
    ensures var p := HeaderPrefix();
            && p[0..4] == PutU32(TABLE_MAGIC) && p[4..8] == PutU32(TABLE_VERSION)
            && p[8..12] == PutU32(HEADER_SIZE) && p[12..16] == PutU32(PAGE_SIZE)
            && p[16..20] == PutU32(ROW_SIZE) && p[20..24] == PutU32(0)
  {
    hide PutLe;
    SixFields(PutU32(TABLE_MAGIC), PutU32(TABLE_VERSION), PutU32(HEADER_SIZE), PutU32(PAGE_SIZE),
              PutU32(ROW_SIZE), PutU32(0));
  }

  lemma ReadPrefix(m: seq<byte>)
    requires |m| >= HEADER_SIZE && m[..24] == HeaderPrefix()
    ensures && GetU32(m[0..4]) == TABLE_MAGIC && GetU32(m[4..8]) == TABLE_VERSION
            && GetU32(m[8..12]) == HEADER_SIZE && GetU32(m[12..16]) == PAGE_SIZE
            && GetU32(m[16..20]) == ROW_SIZE && GetU32(m[20..24]) == 0
  {
    hide PutLe, GetLe, HeaderPrefix;
    PrefixApart();
    var p := m[..24];
    assert m[0..4] == p[0..4] && m[4..8] == p[4..8] && m[8..12] == p[8..12];
    assert m[12..16] == p[12..16] && m[16..20] == p[16..20] && m[20..24] == p[20..24];
    FieldsRoundTrip(TABLE_MAGIC, 0); FieldsRoundTrip(TABLE_VERSION, 0);
    FieldsRoundTrip(HEADER_SIZE, 0); FieldsRoundTrip(PAGE_SIZE, 0);
    FieldsRoundTrip(ROW_SIZE, 0); FieldsRoundTrip(0, 0);
  }

  /** An accepted header announces only rows that are in the file. */
  lemma AcceptedHeader(m: seq<byte>)
    requires ReadHeader(m).Good?
    ensures TrueSize(ReadHeader(m).count) <= |m| <= LONG_MAX
  {
  }

  lemma HeaderCountByte(count: uint64, i: nat)
    requires i < HEADER_SIZE
    ensures Header(count)[i] == if 24 <= i < 32 then PutU64(count)[i - 24] else Header(0)[i]
  {
  }

  lemma HeaderCountUnique(m: seq<byte>, a: uint64, b: uint64)
    requires HeaderHas(m, a) && HeaderHas(m, b)
    ensures a == b
  {
    forall i | 0 <= i < 8 ensures PutU64(a)[i] == PutU64(b)[i] {
      HeaderCountByte(a, i + 24); HeaderCountByte(b, i + 24);
      assert At(m, i + 24) == Header(a)[i + 24] == Header(b)[i + 24];
    }
    assert PutU64(a) == PutU64(b);
    FieldsRoundTrip(0, a); FieldsRoundTrip(0, b);
  }

  /** Without a carry out of the lowest byte, two neighbouring headers differ in that byte only. */
  lemma NeighbourHeaders(count: uint64, i: nat)
    requires count + 1 <= U64_MAX && i < HEADER_SIZE && i != 24 && count % 256 != 255
    ensures At(Header(count + 1), i) == At(Header(count), i)
  {
    HeaderCountByte(count, i); HeaderCountByte(count + 1, i);
    assert (count + 1) / 256 == count / 256;
  }

  /** With a carry, taking only the lowest byte of the larger count gives a much smaller one. */
  lemma CarriedHeader(count: uint64, i: nat)
    requires 255 <= count && count + 1 <= U64_MAX && i < HEADER_SIZE && count % 256 == 255
    ensures At(Header(count - 255), i) == At(if i == 24 then Header(count + 1) else Header(count), i)
  {
    HeaderCountByte(count, i); HeaderCountByte(count + 1, i); HeaderCountByte(count - 255, i);
    assert (count - 255) / 256 == count / 256 && (count - 255) % 256 == 0 == (count + 1) % 256;
  }

  // ----- rows in a table file -----

  function Drop(m: seq<byte>, n: nat): (r: seq<byte>)
    ensures forall i: nat :: At(r, i) == At(m, n + i)
  {
    if n <= |m| then m[n..] else []
  }

  /** The 36 bytes at a row's place. */
  function SlotAt(m: seq<byte>, row: nat): (s: Slot)
    ensures forall i :: 0 <= i < ROW_SIZE ==> s[i] == At(m, TrueOffset(row) + i)
  {
    Resize(Drop(m, TrueOffset(row)), ROW_SIZE)
  }

  /** The file holds these rows, in order, from the first slot on. */
  ghost predicate Holds(m: seq<byte>, rows: seq<Slot>) {
    |m| >= TrueSize(|rows|) && forall k :: 0 <= k < |rows| ==> SlotAt(m, k) == rows[k]
  }

  ghost predicate AllHold(f: File, rows: seq<Slot>) {
    forall m :: m in f.images ==> Holds(m, rows)
  }

  ghost predicate AllHeader(f: File, count: uint64) {
    forall m :: m in f.images ==> HeaderHas(m, count)
  }

  /** Bytes on which all contents agree are not lost. */
  lemma CrashAgrees(f: File, t: seq<byte>, i: nat, b: byte)
    requires CrashImage(f, t) && i < |t|
    requires forall m :: m in f.images ==> At(m, i) == b
    ensures At(t, i) == b
  {
    assert ByteSurvives(f, i, t[i]);
    var k :| 0 <= k < |f.images| && At(f.images[k], i) == t[i];
    assert f.images[k] in f.images;
  }

  lemma CrashKeepsRows(f: File, t: seq<byte>, rows: seq<Slot>)
    requires CrashImage(f, t) && AllHold(f, rows)
    ensures Holds(t, rows)
  {
    var k :| 0 <= k < |f.images| && |f.images[k]| <= |t|;
    assert f.images[k] in f.images;
    forall k | 0 <= k < |rows| ensures SlotAt(t, k) == rows[k] {
      SlotInside(k, |rows|);
      forall i | 0 <= i < ROW_SIZE ensures SlotAt(t, k)[i] == rows[k][i] {
        forall m | m in f.images ensures At(m, TrueOffset(k) + i) == rows[k][i] {
          assert Holds(m, rows);
          assert SlotAt(m, k)[i] == rows[k][i];
        }
        CrashAgrees(f, t, TrueOffset(k) + i, rows[k][i]);
      }
    }
  }

  lemma SlotInside(k: nat, count: nat)
    requires k < count
    ensures HEADER_SIZE <= TrueOffset(k) && TrueOffset(k) + ROW_SIZE <= TrueSize(count)
  {
    SizesIncrease(k + 1, count);
  }

  lemma CrashKeepsHeader(f: File, t: seq<byte>, count: uint64)
    requires CrashImage(f, t) && AllHeader(f, count)
    ensures HeaderHas(t, count)
  {
    var k :| 0 <= k < |f.images| && |f.images[k]| <= |t|;
    assert f.images[k] in f.images;
    forall i | 0 <= i < HEADER_SIZE ensures At(t, i) == Header(count)[i] {
      CrashAgrees(f, t, i, Header(count)[i]);
    }
  }

  /** Each content has one of two neighbouring headers. */
  ghost predicate EitherHeader(f: File, count: uint64) {
    count + 1 <= U64_MAX && forall m :: m in f.images ==> HeaderHas(m, count) || HeaderHas(m, count + 1)
  }

  /** Two neighbouring headers can be torn into nothing but one of the two, unless there is a carry. */
  lemma CrashMixesHeaders(f: File, t: seq<byte>, count: uint64)
    requires CrashImage(f, t) && EitherHeader(f, count) && count % 256 != 255
    ensures HeaderHas(t, count) || HeaderHas(t, count + 1)
  {
    var k :| 0 <= k < |f.images| && |f.images[k]| <= |t|;
    assert f.images[k] in f.images;
    assert ByteSurvives(f, 24, t[24]);
    var w :| 0 <= w < |f.images| && At(f.images[w], 24) == t[24];
    assert f.images[w] in f.images;
    var c := if HeaderHas(f.images[w], count) then count else count + 1;
    forall i | 0 <= i < HEADER_SIZE ensures At(t, i) == Header(c)[i] {
      if i != 24 {
        NeighbourHeaders(count, i);
        CrashAgrees(f, t, i, Header(count)[i]);
      }
    }
    assert HeaderHas(t, c);
  }

  /** With a carry, they can: all bytes but the lowest of the count from the one, that from the other. */
  lemma TornBetween(f: File, older: seq<byte>, newer: seq<byte>, count: uint64, t: seq<byte>)
    requires older in f.images && newer in f.images && |older| == |newer| == |t|
    requires 255 <= count && count % 256 == 255 && count + 1 <= U64_MAX
    requires HeaderHas(older, count) && HeaderHas(newer, count + 1) && HeaderHas(t, count - 255)
    requires forall i :: HEADER_SIZE <= i < |t| ==> At(t, i) == At(older, i)
    ensures CrashImage(f, t)
  {
    hide Header;
    var j :| 0 <= j < |f.images| && f.images[j] == older;
    var k :| 0 <= k < |f.images| && f.images[k] == newer;
    assert |f.images[j]| <= |t| <= |f.images[j]|;
    forall i | 0 <= i < |t| ensures ByteSurvives(f, i, t[i]) {
      if i < HEADER_SIZE { CarriedHeader(count, i); }
      assert At(f.images[j], i) == At(t, i) || At(f.images[k], i) == At(t, i);
    }
  }

  lemma PatchRowKeeps(m: seq<byte>, rows: seq<Slot>, at: nat, bytes: seq<byte>)
    requires Holds(m, rows) && |rows| <= at && |bytes| <= ROW_SIZE
    ensures Holds(Patch(m, TrueOffset(at), bytes), rows)
  {
    var r := Patch(m, TrueOffset(at), bytes);
    forall k | 0 <= k < |rows| ensures SlotAt(r, k) == rows[k] {
      OffsetsIncrease(k, at);
      assert SlotAt(r, k) == SlotAt(m, k);
    }
  }

  lemma PatchRowHeader(m: seq<byte>, count: uint64, at: nat, bytes: seq<byte>)
    requires HeaderHas(m, count)
    ensures HeaderHas(Patch(m, TrueOffset(at), bytes), count)
  {
    SizeBeforeNextRow(at);
  }

  lemma PatchRowWrites(m: seq<byte>, at: nat, slot: Slot)
    ensures var r := Patch(m, TrueOffset(at), slot);
            SlotAt(r, at) == slot && |r| >= TrueSize(at + 1)
  {
  }

  lemma PatchHeaderKeeps(m: seq<byte>, rows: seq<Slot>, bytes: seq<byte>)
    requires Holds(m, rows) && |bytes| <= HEADER_SIZE
    ensures Holds(Patch(m, 0, bytes), rows)
  {
    var r := Patch(m, 0, bytes);
    forall k | 0 <= k < |rows| ensures SlotAt(r, k) == rows[k] {
      SizeBeforeNextRow(k);
      assert SlotAt(r, k) == SlotAt(m, k);
    }
  }

  lemma PatchHeaderWrites(m: seq<byte>, count: uint64)
    ensures HeaderHas(Patch(m, 0, Header(count)), count)
  {
    hide Header, Patch;
  }

  lemma ResizeKeeps(m: seq<byte>, rows: seq<Slot>)
    requires Holds(m, rows)
    ensures Holds(Resize(m, TrueSize(|rows|)), rows)
  {
    var r := Resize(m, TrueSize(|rows|));
    forall k | 0 <= k < |rows| ensures SlotAt(r, k) == rows[k] {
      SlotInside(k, |rows|);
      assert SlotAt(r, k) == SlotAt(m, k);
    }
  }

  lemma ResizeHeader(m: seq<byte>, count: uint64, length: nat)
    requires HeaderHas(m, count) && length >= HEADER_SIZE
    ensures HeaderHas(Resize(m, length), count)
  {
  }

  lemma HoldsPrefix(m: seq<byte>, rows: seq<Slot>, n: nat)
    requires Holds(m, rows) && n <= |rows|
    ensures Holds(m, rows[..n])
  {
    SizesIncrease(n, |rows|);
  }
}
