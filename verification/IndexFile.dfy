/**
 The persisted index (src/index.c): a 32-byte header and 12-byte entries, what loading
 accepts, and what an accepted index says about the table it belongs to.
 */
module IndexFile {
  import opened Bytes
  import opened Layout
  import opened ChainedIndex

  datatype Entry = Entry(key: int32, offset: int64)

  type Map = map<int32, int64>

  const MAGIC: uint32 := 0x494C5153
  const VERSION: uint32 := 1
  const INDEX_HEADER_SIZE: nat := 32
  const ENTRY_SIZE: nat := 12

  // ----- entries and maps -----

  /** The map of a list of entries, unless a key comes twice. */
  function MapOf(es: seq<Entry>): Option<Map>
    decreases |es|
  {
    if es == [] then Some(map[]) else
    var last := es[|es| - 1];
    match MapOf(es[..|es| - 1])
    case None => None
    case Some(m) => if last.key in m then None else Some(m[last.key := last.offset])
  }

  ghost predicate DistinctKeys(es: seq<Entry>) {
    forall i, j :: 0 <= i < j < |es| ==> es[i].key != es[j].key
  }

  ghost predicate Mentions(es: seq<Entry>, key: int32) {
    exists i :: 0 <= i < |es| && es[i].key == key
  }

  lemma MentionsLast(es: seq<Entry>, key: int32)
    requires es != []
    ensures Mentions(es, key) <==> es[|es| - 1].key == key || Mentions(es[..|es| - 1], key)
  {
    var n := |es| - 1;
    assert forall i :: 0 <= i < n ==> es[..n][i] == es[i];
    if Mentions(es[..n], key) {
      var i :| 0 <= i < n && es[..n][i].key == key;
      assert es[i].key == key;
    }
    if es[n].key == key { assert Mentions(es, key); }
  }

  lemma MapOfNext(es: seq<Entry>, k: nat)
    requires k < |es| && MapOf(es[..k]).Some?
    ensures var m := MapOf(es[..k]).value;
            MapOf(es[..k + 1]) == if es[k].key in m then None else Some(m[es[k].key := es[k].offset])
  {
    assert es[..k + 1][..k] == es[..k];
  }

  /** The map of distinct entries has just those entries. */
  lemma {:induction false} MapOfEntries(es: seq<Entry>)
    ensures MapOf(es).Some? <==> DistinctKeys(es)
    ensures MapOf(es).Some? ==>
              && (forall k :: k in MapOf(es).value <==> Mentions(es, k))
              && forall i :: 0 <= i < |es| ==>
                   es[i].key in MapOf(es).value && MapOf(es).value[es[i].key] == es[i].offset
    decreases |es|
  {
    if es != [] {
      var n := |es| - 1;
      var front := es[..n];
      MapOfEntries(front);
      DistinctLast(es);
      forall k ensures Mentions(es, k) <==> es[n].key == k || Mentions(front, k) { MentionsLast(es, k); }
      hide Mentions, DistinctKeys;
      if MapOf(es).Some? {
        var m := MapOf(front).value;
        assert MapOf(es).value == m[es[n].key := es[n].offset] && es[n].key !in m;
        forall i | 0 <= i < n ensures es[i].key in m && m[es[i].key] == es[i].offset { assert front[i] == es[i]; }
      }
    }
  }

  lemma {:induction false} MapOfCount(es: seq<Entry>)
    requires MapOf(es).Some?
    ensures |MapOf(es).value| == |es|
    decreases |es|
  {
    if es != [] { MapOfCount(es[..|es| - 1]); }
  }

  lemma DistinctLast(es: seq<Entry>)
    requires es != []
    ensures var n := |es| - 1;
            DistinctKeys(es) <==> DistinctKeys(es[..n]) && !Mentions(es[..n], es[n].key)
  {
    var n := |es| - 1;
    var front := es[..n];
    assert forall i :: 0 <= i < n ==> front[i] == es[i];
    forall i | 0 <= i < n && DistinctKeys(es) ensures front[i].key != es[n].key { }
  }

  /** Once a key has come twice, no further entry helps. */
  lemma {:induction false} MapOfPrefix(es: seq<Entry>, k: nat)
    requires k <= |es| && MapOf(es[..k]).None?
    ensures MapOf(es).None?
    decreases |es|
  {
    if k < |es| {
      assert es[..|es| - 1][..k] == es[..k];
      MapOfPrefix(es[..|es| - 1], k);
    } else {
      assert es[..k] == es;
    }
  }

  // ----- bytes -----

  function EncodeEntry(e: Entry): (r: seq<byte>)
    ensures |r| == ENTRY_SIZE
  {
    PutU32(ToU32(e.key)) + PutU64(ToU64(e.offset))
  }

  function EncodeEntries(es: seq<Entry>): (r: seq<byte>)
    ensures |r| == ENTRY_SIZE * |es|
    decreases |es|
  {
    if es == [] then [] else EncodeEntries(es[..|es| - 1]) + EncodeEntry(es[|es| - 1])
  }

  function DecodeEntry(b: seq<byte>): Entry
    requires |b| == ENTRY_SIZE
  {
    Entry(FromU32(GetU32(b[..4])), FromU64(GetU64(b[4..])))
  }

  function DecodeEntries(b: seq<byte>, n: nat): (es: seq<Entry>)
    requires |b| >= ENTRY_SIZE * n
    ensures |es| == n
  {
    if n == 0 then [] else
    DecodeEntries(b, n - 1) + [DecodeEntry(b[ENTRY_SIZE * (n - 1)..ENTRY_SIZE * n])]
  }

  lemma {:induction false} DecodePrefix(b: seq<byte>, i: nat, n: nat)
    requires i <= n && |b| >= ENTRY_SIZE * n
    ensures DecodeEntries(b, n)[..i] == DecodeEntries(b, i)
  {
    hide DecodeEntry;
    if i < n {
      DecodePrefix(b, i, n - 1);
      assert DecodeEntries(b, n)[..i] == DecodeEntries(b, n - 1)[..i];
    }
  }

  /** Signed keys and offsets survive the unsigned fields. */
  lemma DecodeEncodeEntry(e: Entry)
    ensures DecodeEntry(EncodeEntry(e)) == e
  {
    var b := EncodeEntry(e);
    assert b[..4] == PutU32(ToU32(e.key)) && b[4..] == PutU64(ToU64(e.offset));
    FieldsRoundTrip(ToU32(e.key), ToU64(e.offset));
  }

  lemma MidSlice(a: seq<byte>, b: seq<byte>, c: seq<byte>)
    ensures (a + b + c)[|a|..|a| + |b|] == b
  {
  }

  lemma {:induction false} DecodeEncodeEntries(es: seq<Entry>, rest: seq<byte>)
    ensures DecodeEntries(EncodeEntries(es) + rest, |es|) == es
    decreases |es|
  {
    if es != [] {
      hide EncodeEntry, DecodeEntry;
      var n := |es| - 1;
      var front, last := EncodeEntries(es[..n]), EncodeEntry(es[n]);
      assert EncodeEntries(es) + rest == front + (last + rest);
      DecodeEncodeEntries(es[..n], last + rest);
      MidSlice(front, last, rest);
      DecodeEncodeEntry(es[n]);
    }
  }

  function IndexHeader(count: uint32): (r: seq<byte>)
    ensures |r| == INDEX_HEADER_SIZE
  {
    PutU32(MAGIC) + PutU32(VERSION) + PutU32(INDEX_HEADER_SIZE) + PutU32(ENTRY_SIZE)
    + PutU32(count) + PutU32(0) + Zeros(8)
  }

  /** The file that `index_persist` writes. */
  function EncodeIndex(es: seq<Entry>): seq<byte>
    requires |es| < U32
  {
    IndexHeader(|es|) + EncodeEntries(es)
  }

  datatype Loaded = Loaded(m: Map) | Rejected(status: IndexStatus)

  /**
   `read_index_header` and the loop of `index_load`: the map in an index file, for a table
   with `rowCount` rows, or the status that sends the caller to a rebuild.
   */
  function LoadIndex(file: Option<seq<byte>>, rowCount: uint64): Loaded {
    if file.None? then Rejected(IndexNotFound) else
    var b := file.value;
    if |b| < INDEX_HEADER_SIZE then Rejected(IndexIncompatible) else
    if GetU32(b[0..4]) != MAGIC || GetU32(b[4..8]) != VERSION || GetU32(b[8..12]) != INDEX_HEADER_SIZE
       || GetU32(b[12..16]) != ENTRY_SIZE || GetU32(b[20..24]) != 0 then Rejected(IndexIncompatible) else
    var count := GetU32(b[16..20]);
    if count != rowCount then Rejected(IndexCorrupt) else
    if INDEX_HEADER_SIZE + ENTRY_SIZE * count != |b| then Rejected(IndexCorrupt) else
    match MapOf(DecodeEntries(b[INDEX_HEADER_SIZE..], count))
    case None => Rejected(IndexCorrupt)
    case Some(m) => Loaded(m)
  }

  /** Every index starts with "SQLI", version 1, and the sizes of header and entry; the count comes next. */
  lemma IndexHeaderBytes(count: uint32)
    ensures IndexHeader(count) ==
            [0x53, 0x51, 0x4C, 0x49, 1, 0, 0, 0, 32, 0, 0, 0, 12, 0, 0, 0] + PutU32(count) + Zeros(12)
  {
    hide PutLe, PutU32;
    FourBytes(0x53, 0x51, 0x4C, 0x49);
    FourBytes(1, 0, 0, 0);
    FourBytes(32, 0, 0, 0);
    FourBytes(12, 0, 0, 0);
    FourBytes(0, 0, 0, 0);
  }

  /** An entry is its key and its offset in two's complement, lowest bytes first. */
  lemma EntryBytes(e: Entry, i: nat)
    requires i < 12
    ensures var key := if e.key < 0 then e.key + 0x1_0000_0000 else e.key;
            var offset := if e.offset < 0 then e.offset + 0x1_0000_0000_0000_0000 else e.offset;
            EncodeEntry(e)[i] == if i < 4 then (key / Pow256(i)) % 256 else (offset / Pow256(i - 4)) % 256
  {
    hide PutLe, Pow256;
    if i < 4 { PutLeByte(ToU32(e.key), 4, i); } else { PutLeByte(ToU64(e.offset), 8, i - 4); }
  }

  lemma HeaderApart(count: uint32)
    ensures var h := IndexHeader(count);
            && h[0..4] == PutU32(MAGIC) && h[4..8] == PutU32(VERSION) && h[8..12] == PutU32(INDEX_HEADER_SIZE)
            && h[12..16] == PutU32(ENTRY_SIZE) && h[16..20] == PutU32(count) && h[20..24] == PutU32(0)
  {
    hide PutLe;
    SixFields(PutU32(MAGIC), PutU32(VERSION), PutU32(INDEX_HEADER_SIZE), PutU32(ENTRY_SIZE), PutU32(count), PutU32(0));
  }

  /** Writing entries with distinct keys and loading the file gives their map back. */
  lemma LoadEncodeIndex(es: seq<Entry>)
    requires |es| < U32 && DistinctKeys(es)
    ensures MapOf(es).Some? && LoadIndex(Some(EncodeIndex(es)), |es|) == Loaded(MapOf(es).value)
  {
    hide EncodeEntries, DecodeEntries, MapOf, EncodeIndex, DistinctKeys, GetU32, PutU32, PutLe, GetLe, IndexHeader;
    assert MapOf(es).Some? by { MapOfEntries(es); }
    HeaderFields(es);
    BodyOf(es);
    DecodeEncodeEntries(es, []);
    assert EncodeEntries(es) + [] == EncodeEntries(es);
  }

  lemma BodyOf(es: seq<Entry>)
    requires |es| < U32
    ensures EncodeIndex(es)[INDEX_HEADER_SIZE..] == EncodeEntries(es)
    ensures |EncodeIndex(es)| == INDEX_HEADER_SIZE + ENTRY_SIZE * |es|
  {
    hide EncodeEntries, IndexHeader;
  }

  lemma HeaderFields(es: seq<Entry>)
    requires |es| < U32
    ensures var b := EncodeIndex(es);
            && GetU32(b[0..4]) == MAGIC && GetU32(b[4..8]) == VERSION && GetU32(b[8..12]) == INDEX_HEADER_SIZE
            && GetU32(b[12..16]) == ENTRY_SIZE && GetU32(b[16..20]) == |es| && GetU32(b[20..24]) == 0
  {
    hide PutLe, GetLe, EncodeEntries;
    var b, h := EncodeIndex(es), IndexHeader(|es|);
    HeaderApart(|es|);
    assert b[0..4] == h[0..4] && b[4..8] == h[4..8] && b[8..12] == h[8..12]
           && b[12..16] == h[12..16] && b[16..20] == h[16..20] && b[20..24] == h[20..24];
    FieldsRoundTrip(MAGIC, 0); FieldsRoundTrip(VERSION, 0); FieldsRoundTrip(INDEX_HEADER_SIZE, 0);
    FieldsRoundTrip(ENTRY_SIZE, 0); FieldsRoundTrip(|es|, 0); FieldsRoundTrip(0, 0);
  }

  /** The file is a header for this many entries, whatever its last eight bytes, and then the entries. */
  ghost predicate Spells(b: seq<byte>, es: seq<Entry>) {
    && |es| < U32 && |b| == INDEX_HEADER_SIZE + ENTRY_SIZE * |es|
    && b[..24] == IndexHeader(|es|)[..24] && b[INDEX_HEADER_SIZE..] == EncodeEntries(es)
  }

  /** The checks of loading accept exactly the files that spell out entries with distinct keys, one for each row. */
  lemma LoadExact(b: seq<byte>, rowCount: uint64, m: Map)
    ensures LoadIndex(Some(b), rowCount) == Loaded(m) <==>
            exists es :: Spells(b, es) && |es| == rowCount && MapOf(es) == Some(m)
  {
    hide PutLe, GetLe, EncodeEntries, DecodeEntries, MapOf, IndexHeader;
    if LoadIndex(Some(b), rowCount) == Loaded(m) {
      var body := b[INDEX_HEADER_SIZE..];
      var es := DecodeEntries(body, rowCount);
      EncodeDecodeEntries(body, rowCount);
      assert body[..ENTRY_SIZE * rowCount] == body;
      HeaderExact(b, rowCount);
      assert Spells(b, es);
    }
    forall es | Spells(b, es) && |es| == rowCount && MapOf(es) == Some(m)
      ensures LoadIndex(Some(b), rowCount) == Loaded(m)
    {
      HeaderExact(b, |es|);
      FieldsRoundTrip(|es|, 0);
      DecodeEncodeEntries(es, []);
      assert EncodeEntries(es) + [] == EncodeEntries(es);
    }
  }

  /** Why a file is refused: there is none, it is no index file, or it does not fit the table or itself. */
  lemma LoadRefused(file: Option<seq<byte>>, rowCount: uint64, status: IndexStatus)
    ensures LoadIndex(file, rowCount) == Rejected(status) <==>
            match file
            case None => status == IndexNotFound
            case Some(b) =>
              if |b| < 32 || b[..16] != IndexHeader(0)[..16] || b[20..24] != [0, 0, 0, 0] then
                status == IndexIncompatible
              else
                && status == IndexCorrupt
                && (GetU32(b[16..20]) != rowCount || |b| != 32 + 12 * rowCount
                    || MapOf(DecodeEntries(b[32..], rowCount)).None?)
  {
    hide PutLe, GetLe, DecodeEntries, MapOf, IndexHeader;
    if file.Some? && |file.value| >= 32 {
      SameHeader(file.value);
      FieldsRoundTrip(0, 0);
      FourBytes(0, 0, 0, 0);
    }
  }

  lemma SameHeader(b: seq<byte>)
    requires |b| >= 32
    ensures b[..16] == IndexHeader(0)[..16] <==>
            && GetU32(b[0..4]) == MAGIC && GetU32(b[4..8]) == VERSION && GetU32(b[8..12]) == INDEX_HEADER_SIZE
            && GetU32(b[12..16]) == ENTRY_SIZE
  {
    hide PutLe, GetLe, IndexHeader;
    HeaderApart(0);
    var h := IndexHeader(0);
    var x, y := b[..16], h[..16];
    assert x == b[0..4] + b[4..8] + b[8..12] + b[12..16] && y == h[0..4] + h[4..8] + h[8..12] + h[12..16];
    assert x[0..4] == b[0..4] && x[4..8] == b[4..8] && x[8..12] == b[8..12] && x[12..16] == b[12..16];
    assert y[0..4] == h[0..4] && y[4..8] == h[4..8] && y[8..12] == h[8..12] && y[12..16] == h[12..16];
    FieldsRoundTrip(MAGIC, 0); FieldsRoundTrip(VERSION, 0);
    FieldsRoundTrip(INDEX_HEADER_SIZE, 0); FieldsRoundTrip(ENTRY_SIZE, 0);
  }

  lemma {:induction false} EncodeDecodeEntries(b: seq<byte>, n: nat)
    requires |b| >= ENTRY_SIZE * n
    ensures EncodeEntries(DecodeEntries(b, n)) == b[..ENTRY_SIZE * n]
  {
    hide EncodeEntry, DecodeEntry;
    if n > 0 {
      EncodeDecodeEntries(b, n - 1);
      var es := DecodeEntries(b, n);
      assert es[..n - 1] == DecodeEntries(b, n - 1);
      EncodeDecodeEntry(b[ENTRY_SIZE * (n - 1)..ENTRY_SIZE * n]);
      assert b[..ENTRY_SIZE * n] == b[..ENTRY_SIZE * (n - 1)] + b[ENTRY_SIZE * (n - 1)..ENTRY_SIZE * n];
    }
  }

  lemma EncodeDecodeEntry(b: seq<byte>)
    requires |b| == ENTRY_SIZE
    ensures EncodeEntry(DecodeEntry(b)) == b
  {
    hide PutLe, GetLe;
    assert b == b[..4] + b[4..];
  }

  lemma HeaderExact(b: seq<byte>, count: uint32)
    requires |b| >= INDEX_HEADER_SIZE
    ensures b[..24] == IndexHeader(count)[..24] <==>
            && GetU32(b[0..4]) == MAGIC && GetU32(b[4..8]) == VERSION && GetU32(b[8..12]) == INDEX_HEADER_SIZE
            && GetU32(b[12..16]) == ENTRY_SIZE && GetU32(b[16..20]) == count && GetU32(b[20..24]) == 0
  {
    hide PutLe, GetLe;
    FieldsRoundTrip(MAGIC, 0); FieldsRoundTrip(VERSION, 0); FieldsRoundTrip(INDEX_HEADER_SIZE, 0);
    FieldsRoundTrip(ENTRY_SIZE, 0); FieldsRoundTrip(count, 0); FieldsRoundTrip(0, 0);
    var h := IndexHeader(count);
    HeaderApart(count);
    assert h[..24] == h[0..4] + h[4..8] + h[8..12] + h[12..16] + h[16..20] + h[20..24];
    assert b[..24] == b[0..4] + b[4..8] + b[8..12] + b[12..16] + b[16..20] + b[20..24];
    if b[..24] == h[..24] {
      assert b[0..4] == b[..24][0..4] && b[4..8] == b[..24][4..8] && b[8..12] == b[..24][8..12];
      assert b[12..16] == b[..24][12..16] && b[16..20] == b[..24][16..20] && b[20..24] == b[..24][20..24];
      assert h[0..4] == h[..24][0..4] && h[4..8] == h[..24][4..8] && h[8..12] == h[..24][8..12];
      assert h[12..16] == h[..24][12..16] && h[16..20] == h[..24][16..20] && h[20..24] == h[..24][20..24];
    }
  }

  /** Only the number of entries ties an index to its table: another row count is refused. */
  lemma LoadRefusesOtherCounts(es: seq<Entry>, rowCount: uint64)
    requires |es| < U32 && rowCount != |es|
    ensures LoadIndex(Some(EncodeIndex(es)), rowCount) == Rejected(IndexCorrupt)
  {
    HeaderFields(es);
  }

  // ----- an index against its table -----

  /** The entry points at a row of the table that has its key. */
  ghost predicate PointsAtRow(ids: seq<int32>, key: int32, offset: int64) {
    exists k :: 0 <= k < |ids| && TrueOffset(k) == offset && ids[k] == key
  }

  /** Each id leads to exactly its row. */
  ghost predicate ExactIndex(ids: seq<int32>, m: Map) {
    && (forall k :: 0 <= k < |ids| ==> ids[k] in m && m[ids[k]] == TrueOffset(k))
    && forall key :: key in m ==> key in ids
  }

  ghost predicate Distinct(ids: seq<int32>) {
    forall i, j :: 0 <= i < j < |ids| ==> ids[i] != ids[j]
  }

  /**
   Completeness by counting: as many entries as rows, each pointing at a row with its key,
   can only be the exact index of a table whose ids are unique.
   */
  lemma CountingCompletes(ids: seq<int32>, m: Map)
    requires |m| == |ids|
    requires forall key :: key in m ==> PointsAtRow(ids, key, m[key])
    ensures ExactIndex(ids, m) && Distinct(ids)
  {
    var rows := RowsPointedAt(ids, m, m.Keys);
    SubsetOfSameSize(rows, Numbers(|ids|));
    forall k | 0 <= k < |ids| ensures ids[k] in m && m[ids[k]] == TrueOffset(k) {
      assert k in Numbers(|ids|) && k in rows;
    }
    forall i, j | 0 <= i < j < |ids| ensures ids[i] != ids[j] {
      if ids[i] == ids[j] { OffsetsIncrease(i, j); }
    }
  }

  function Numbers(n: nat): (s: set<nat>)
    ensures |s| == n && forall k: nat :: k in s <==> k < n
  {
    if n == 0 then {} else Numbers(n - 1) + {n - 1}
  }

  lemma SubsetOfSameSize(a: set<nat>, b: set<nat>)
    requires a <= b && |a| == |b|
    ensures a == b
  {
    assert b == a + (b - a) && |b| == |a| + |b - a|;
  }

  /** The row numbers the keys lead to, one for each key. */
  lemma {:induction false} RowsPointedAt(ids: seq<int32>, m: Map, keys: set<int32>) returns (rows: set<nat>)
    requires keys <= m.Keys && forall key :: key in m ==> PointsAtRow(ids, key, m[key])
    ensures |rows| == |keys| && rows <= Numbers(|ids|)
    ensures forall k :: k in rows ==> k < |ids| && ids[k] in keys && m[ids[k]] == TrueOffset(k)
    decreases |keys|
  {
    if keys == {} {
      rows := {};
    } else {
      var key :| key in keys;
      var others := RowsPointedAt(ids, m, keys - {key});
      assert PointsAtRow(ids, key, m[key]);
      var k :| 0 <= k < |ids| && TrueOffset(k) == m[key] && ids[k] == key;
      rows := others + {k};
      assert k !in others;
    }
  }

  /** The entries a rebuild inserts: every row's id with the row's offset. */
  function RowEntries(ids: seq<int32>): (es: seq<Entry>)
    requires TrueSize(|ids|) <= LONG_MAX
    ensures |es| == |ids|
    ensures forall k :: 0 <= k < |ids| ==> es[k].key == ids[k] && es[k].offset == TrueOffset(k)
    decreases |ids|
  {
    if ids == [] then [] else
    var n := |ids| - 1;
    SizesIncrease(n, |ids|);
    RowEntries(ids[..n]) + [Entry(ids[n], TrueOffset(n))]
  }

  /** Rebuilding fails exactly on a repeated id, and otherwise gives the exact index. */
  lemma RebuiltMap(ids: seq<int32>)
    requires TrueSize(|ids|) <= LONG_MAX
    ensures MapOf(RowEntries(ids)).Some? <==> Distinct(ids)
    ensures Distinct(ids) ==> ExactIndex(ids, MapOf(RowEntries(ids)).value)
  {
    hide TrueOffset, TrueSize, RowEntries;
    var es := RowEntries(ids);
    MapOfEntries(es);
    if Distinct(ids) {
      var m := MapOf(es).value;
      forall k | 0 <= k < |ids| ensures ids[k] in m && m[ids[k]] == TrueOffset(k) {
        assert es[k].key == ids[k];
      }
    }
  }

  lemma LoadedSize(file: Option<seq<byte>>, rowCount: uint64)
    requires LoadIndex(file, rowCount).Loaded?
    ensures |LoadIndex(file, rowCount).m| == rowCount
  {
    var b := file.value;
    MapOfCount(DecodeEntries(b[INDEX_HEADER_SIZE..], GetU32(b[16..20])));
  }

  /** A file that loads for the table, with entries that are all confirmed, is the table's exact index. */
  lemma ConfirmedIndexIsExact(file: Option<seq<byte>>, ids: seq<int32>, m: Map)
    requires |ids| <= U64_MAX && LoadIndex(file, |ids|) == Loaded(m)
    requires forall key :: key in m ==> PointsAtRow(ids, key, m[key])
    ensures ExactIndex(ids, m) && Distinct(ids)
  {
    hide LoadIndex, PointsAtRow, ExactIndex, Distinct;
    LoadedSize(file, |ids|);
    CountingCompletes(ids, m);
  }

  /** A file that loads for one row count is refused for every other. */
  lemma LoadsForOneCount(file: Option<seq<byte>>, a: uint64, b: uint64)
    requires LoadIndex(file, a).Loaded? && a != b
    ensures LoadIndex(file, b).Rejected?
  {
    hide MapOf, DecodeEntries, PutLe, GetLe;
  }

  /** The exact index stays exact when a row with a new id and its entry are added. */
  lemma ExactIndexGrows(ids: seq<int32>, m: Map, id: int32)
    requires ExactIndex(ids, m) && id !in ids && TrueOffset(|ids|) <= LONG_MAX
    ensures ExactIndex(ids + [id], m[id := TrueOffset(|ids|)])
  {
    hide TrueOffset;
    var all := ids + [id];
    assert forall k :: 0 <= k < |ids| ==> all[k] == ids[k] && ids[k] in ids;
    assert all[|ids|] == id;
  }

  lemma ExactIndexUnique(ids: seq<int32>, m: Map, m': Map)
    requires ExactIndex(ids, m) && ExactIndex(ids, m')
    ensures m == m'
  {
    forall key ensures key in m <==> key in m' { }
    forall key | key in m ensures m[key] == m'[key] {
      var k :| 0 <= k < |ids| && ids[k] == key;
    }
  }
}
