/**
 The index against its file and its table (src/index.c): persist, load, rebuild from the
 table, and the check of one entry before it is believed.
 */
module IndexStore {
  import opened Bytes
  import opened Layout
  import opened Journal
  import opened Disk
  import opened CrashSafety
  import opened Keys
  import opened Storage
  import opened StatementRuns
  import opened HashIndex
  import opened ChainedIndex
  import opened IndexFile

  function IdsOf(rows: seq<Row>): (ids: seq<int32>)
    ensures |ids| == |rows| && forall k :: 0 <= k < |rows| ==> ids[k] == rows[k].id
    decreases |rows|
  {
    if rows == [] then [] else IdsOf(rows[..|rows| - 1]) + [rows[|rows| - 1].id]
  }

  lemma StandsUnique(nodes: set<IndexNode>, m: Map, m': Map)
    requires Stands(nodes, m) && Stands(nodes, m')
    ensures m == m'
  {
    forall key | key in m ensures m[key] == m'[key] {
      assert HasKey(nodes, key);
      var node :| node in nodes && node.key == key;
    }
    assert m.Keys == m'.Keys;
  }

  /** `write_index_entries`: bucket by bucket, chain by chain, every entry once. */
  method WriteEntries(index: Index) returns (bytes: seq<byte>, ghost es: seq<Entry>)
    requires index.Valid()
    ensures bytes == EncodeEntries(es) && DistinctKeys(es) && MapOf(es) == Some(index.M)
    ensures |es| == index.entryCount
  {
    var n := index.buckets.Length;
    ghost var chains, nodes := index.chains, index.nodes;
    BelowEnds(chains, nodes);
    bytes, es := [], [];
    ghost var m: Map := map[];
    for i := 0 to n
      invariant bytes == EncodeEntries(es) && MapOf(es) == Some(m)
      invariant Stands(Below(nodes, n, i), m)
    {
      BelowNext(chains, nodes, i);
      bytes, es, m := WriteChain(index.buckets[i], chains[i], Below(nodes, n, i), bytes, es, m);
    }
    StandsUnique(nodes, m, index.M);
    MapOfEntries(es);
    MapOfCount(es);
  }

  method WriteChain(head: IndexNode?, ghost chain: seq<IndexNode>, ghost done: set<IndexNode>,
                    bytes: seq<byte>, ghost es: seq<Entry>, ghost m: Map)
    returns (bytes': seq<byte>, ghost es': seq<Entry>, ghost m': Map)
    requires Linked(head, chain) && NewKeys(chain, done)
    requires bytes == EncodeEntries(es) && MapOf(es) == Some(m) && Stands(done, m)
    ensures bytes' == EncodeEntries(es') && MapOf(es') == Some(m') && Stands(done + Elements(chain), m')
  {
    hide EncodeEntry, Stands, HasKey;
    bytes', es', m' := bytes, es, m;
    var node := head;
    ghost var pos := 0;
    assert done + Elements(chain[..0]) == done;
    while node != null
      invariant 0 <= pos <= |chain| && node == NodeAt(chain, pos)
      invariant bytes' == EncodeEntries(es') && MapOf(es') == Some(m') && Stands(done + Elements(chain[..pos]), m')
      decreases |chain| - pos
    {
      assert LinkAt(chain, pos);
      StillNew(chain, done, pos);
      var e := Entry(node.key, node.offset);
      AppendEntry(es', m', done + Elements(chain[..pos]), node);
      assert (es' + [e])[..|es'|] == es';
      bytes', es', m' := bytes' + EncodeEntry(e), es' + [e], m'[e.key := e.offset];
      assert chain[..pos + 1] == chain[..pos] + [node];
      assert done + Elements(chain[..pos + 1]) == done + Elements(chain[..pos]) + {node};
      node := node.next;
      pos := pos + 1;
    }
    assert chain[..pos] == chain;
  }

  lemma AppendEntry(es: seq<Entry>, m: Map, done: set<IndexNode>, node: IndexNode)
    requires MapOf(es) == Some(m) && Stands(done, m) && !HasKey(done, node.key)
    ensures MapOf(es + [Entry(node.key, node.offset)]) == Some(m[node.key := node.offset])
    ensures Stands(done + {node}, m[node.key := node.offset])
  {
    var e := Entry(node.key, node.offset);
    assert (es + [e])[..|es|] == es;
    StandsWith(done, m, node);
  }

  /** The file holds this map for a table of this many rows. */
  ghost predicate FileHolds(file: Option<seq<byte>>, m: Map, count: nat) {
    count < U32 && LoadIndex(file, count) == Loaded(m)
  }

  /**
   `index_persist`. Whether or not it succeeds, the file is the old one or one that loads
   back to exactly this index's map when the table has as many rows as it has entries.
   */
  method Persist(index: Index, volume: Volume) returns (status: IndexStatus)
    requires index.Valid() && volume.Valid()
    modifies volume`index, volume`entries, volume`world, volume`history
    ensures volume.Valid() && NoInsertSince(old(volume.history), volume.history)
    ensures volume.world == old(volume.world).(entries := volume.world.entries)
    ensures volume.world.Journal() == old(volume.world.Journal())
    ensures status == IndexOk || status == IndexPersistError
    ensures status == IndexOk ==> FileHolds(volume.index, index.M, index.entryCount) && |volume.entries| == 1
    ensures volume.index == old(volume.index) || FileHolds(volume.index, index.M, index.entryCount)
    ensures volume.reliable && index.entryCount < U32 ==> status == IndexOk
  {
    hide Index.Valid, LoadIndex, EncodeIndex, EncodeEntries, IndexHeader, MapOf, DistinctKeys;
    if index.entryCount >= U32 { return IndexPersistError; }
    var bytes, es := WriteEntries(index);
    LoadEncodeIndex(es);
    assert IndexHeader(index.entryCount) + bytes == EncodeIndex(es) by { BodyIs(es); }
    var ok := volume.ReplaceIndexFile(IndexHeader(index.entryCount) + bytes);
    return if ok then IndexOk else IndexPersistError;
  }

  lemma BodyIs(es: seq<Entry>)
    requires |es| < U32
    ensures EncodeIndex(es) == IndexHeader(|es|) + EncodeEntries(es)
  {
  }

  /** The next load either refuses the file or gets the exact index from it. */
  ghost predicate ExactOrRefused(file: Option<seq<byte>>, ids: seq<int32>) {
    |ids| <= U64_MAX
    && match LoadIndex(file, |ids|)
       case Rejected(_) => true
       case Loaded(m) => ExactIndex(ids, m)
  }

  /** An index started for the newest row alone is exact if that is the only row, and refused otherwise. */
  lemma OneEntryIsExactOrRefused(file: Option<seq<byte>>, ids: seq<int32>, offset: int64)
    requires 0 < |ids| <= U64_MAX && offset == TrueOffset(|ids| - 1)
    requires FileHolds(file, map[ids[|ids| - 1] := offset], 1)
    ensures ExactOrRefused(file, ids)
  {
    hide LoadIndex, ExactIndex, TrueOffset;
    var id := ids[|ids| - 1];
    if |ids| == 1 {
      assert PointsAtRow(ids, id, offset) by { assert TrueOffset(0) == offset && ids[0] == id; }
      ConfirmedIndexIsExact(file, ids, map[id := offset]);
    } else {
      LoadsForOneCount(file, 1, |ids|);
    }
  }

  /** An index that was exact before the newest row stays so with that row's entry, or is refused. */
  lemma GrownIsExactOrRefused(file: Option<seq<byte>>, ids: seq<int32>, m: Map, offset: int64, count: nat)
    requires 0 < |ids| <= U64_MAX && offset == TrueOffset(|ids| - 1) && Distinct(ids)
    requires ExactIndex(ids[..|ids| - 1], m) && FileHolds(file, m[ids[|ids| - 1] := offset], count)
    ensures ExactOrRefused(file, ids)
  {
    hide LoadIndex, ExactIndex, TrueOffset;
    var front, id := ids[..|ids| - 1], ids[|ids| - 1];
    assert front + [id] == ids;
    if count == |ids| {
      assert id !in front;
      ExactIndexGrows(front, m, id);
    } else {
      LoadsForOneCount(file, count, |ids|);
    }
  }

  /** The file will load as the exact index of a table with these ids. */
  ghost predicate HoldsExact(file: Option<seq<byte>>, ids: seq<int32>) {
    exists m :: ExactIndex(ids, m) && FileHolds(file, m, |ids|)
  }

  lemma NewestAbsent(ids: seq<int32>, m: Map)
    requires ids != [] && Distinct(ids) && ExactIndex(ids[..|ids| - 1], m)
    ensures ids[|ids| - 1] !in m
  {
  }

  lemma GrownIsHeld(file: Option<seq<byte>>, ids: seq<int32>, m: Map, offset: int64, count: nat)
    requires 0 < |ids| <= U64_MAX && offset == TrueOffset(|ids| - 1) && Distinct(ids)
    requires ExactIndex(ids[..|ids| - 1], m) && FileHolds(file, m[ids[|ids| - 1] := offset], count)
    ensures count == |ids| ==> HoldsExact(file, ids)
  {
    hide LoadIndex, ExactIndex, TrueOffset;
    var front, id := ids[..|ids| - 1], ids[|ids| - 1];
    assert front + [id] == ids && id !in front;
    ExactIndexGrows(front, m, id);
  }

  // ----- loading -----

  /** The index is as large as `index_create_sized` makes it for this many entries. */
  ghost predicate SizedFor(index: Index, entries: nat)
    reads index
  {
    var n := index.buckets.Length;
    entries <= LoadLimit(n) && (n == INITIAL_BUCKETS || LoadLimit(n / 2) < entries)
  }

  /** `index_create_sized`. */
  method CreateSized(entries: nat, ample: bool) returns (index: Index?)
    ensures ample && entries < U32 ==> index != null
    ensures index != null ==>
              && fresh(index) && fresh(index.buckets) && index.nodes == {}
              && index.Valid() && index.M == map[] && index.entryCount == 0 && SizedFor(index, entries)
              && index.ample == ample
  {
    var size := BucketCountForEntries(entries);
    var granted := *;
    if size.None? || !(granted || ample) || size.value * BUCKET_BYTES > SIZE_MAX { return null; }
    index := new Index(size.value, ample);
  }

  /** The loop of `index_load`: insert entry after entry, giving up on a repeated key. */
  method LoadEntries(index: Index, body: seq<byte>, count: nat) returns (status: IndexStatus)
    requires index.Valid() && index.M == map[] && index.entryCount == 0 && SizedFor(index, count)
    requires |body| == ENTRY_SIZE * count
    modifies index, index.buckets, index.nodes
    ensures index.Valid() && index.buckets == old(index.buckets) && fresh(index.nodes - old(index.nodes))
    ensures status in {IndexOk, IndexCorrupt, IndexAllocError} && (index.ample ==> status != IndexAllocError)
    ensures status == IndexOk ==> MapOf(DecodeEntries(body, count)) == Some(index.M)
    ensures status == IndexCorrupt && index.ample ==> MapOf(DecodeEntries(body, count)) == None
  {
    hide DecodeEntry, Index.Valid, LoadLimit;
    for i := 0 to count
      invariant index.Valid() && index.buckets == old(index.buckets) && fresh(index.nodes - old(index.nodes))
      invariant MapOf(DecodeEntries(body, i)) == Some(index.M) && index.entryCount == i
    {
      var delivered := *;
      if !(delivered || index.ample) { return IndexCorrupt; }
      var e := DecodeEntry(body[ENTRY_SIZE * i..ENTRY_SIZE * (i + 1)]);
      ghost var next := DecodeEntries(body, i + 1);
      assert next[..i] == DecodeEntries(body, i) && next[i] == e;
      var s := index.Insert(e.key, e.offset, false);
      if s == IndexDuplicateKey {
        DecodePrefix(body, i + 1, count);
        MapOfPrefix(DecodeEntries(body, count), i + 1);
        return IndexCorrupt;
      }
      if s != IndexOk { return s; }
    }
    return IndexOk;
  }

  /**
   `index_load`: reads the table's row count through a read-only open, and the index file.
   The loaded index never has to grow. `tested` is the open's: see Volume.OpenReadOnly.
   */
  method Load(volume: Volume) returns (status: IndexStatus, index: Index?, ghost tested: bool)
    requires volume.Valid()
    ensures status == IndexOk <==> index != null
    ensures volume.reliable ==> tested
    ensures status in {IndexOk, IndexNotFound, IndexIncompatible, IndexCorrupt, IndexIoError, IndexAllocError}
    ensures status in {IndexOk, IndexNotFound, IndexIncompatible, IndexCorrupt} ==>
              ReadHeader(volume.table.Now()).Good? && (tested ==> volume.world.Journal().None?)
    ensures volume.reliable && volume.world.Journal().None? && ReadHeader(volume.table.Now()).Good? ==>
              status !in {IndexIoError, IndexAllocError}
    ensures status in {IndexNotFound, IndexIncompatible} || (status == IndexCorrupt && volume.reliable) ==>
              LoadIndex(volume.index, ReadHeader(volume.table.Now()).count) == Rejected(status)
    ensures status == IndexOk ==>
              && fresh(index) && fresh(index.buckets) && fresh(index.nodes) && index.Valid()
              && SizedFor(index, ReadHeader(volume.table.Now()).count) && index.ample == volume.reliable
              && LoadIndex(volume.index, ReadHeader(volume.table.Now()).count) == Loaded(index.M)
  {
    hide ReadHeader, LoadIndex, DecodeEntries, MapOf;
    index := null;
    var st, table;
    st, table, tested := volume.OpenReadOnly();
    if st != TableOk { return IndexIoError, null, tested; }
    MissingFile(table.rowCount);
    if volume.index.None? { return IndexNotFound, null, tested; }
    var readable := *;
    if !(readable || volume.reliable) { return IndexIoError, null, tested; }
    status, index := LoadFile(volume.index.value, table.rowCount, volume.reliable);
  }

  lemma MissingFile(rowCount: uint64)
    ensures LoadIndex(None, rowCount) == Rejected(IndexNotFound)
  {
  }

  /** `read_index_header` and what follows it. */
  method LoadFile(bytes: seq<byte>, rowCount: uint64, reliable: bool) returns (status: IndexStatus, index: Index?)
    ensures status == IndexOk <==> index != null
    ensures status in {IndexOk, IndexIncompatible, IndexCorrupt, IndexAllocError}
    ensures reliable ==> status != IndexAllocError
    ensures status == IndexIncompatible || (status == IndexCorrupt && reliable) ==>
              LoadIndex(Some(bytes), rowCount) == Rejected(status)
    ensures status == IndexOk ==>
              && fresh(index) && fresh(index.buckets) && fresh(index.nodes) && index.Valid()
              && SizedFor(index, rowCount) && LoadIndex(Some(bytes), rowCount) == Loaded(index.M)
              && index.ample == reliable
  {
    hide DecodeEntries, MapOf, Placed, Counted, PutLe, GetLe;
    index := null;
    if |bytes| < INDEX_HEADER_SIZE { return IndexIncompatible, null; }
    var delivered := *;
    if !(delivered || reliable) { return IndexCorrupt, null; }
    if GetU32(bytes[0..4]) != IndexFile.MAGIC || GetU32(bytes[4..8]) != IndexFile.VERSION
       || GetU32(bytes[8..12]) != INDEX_HEADER_SIZE || GetU32(bytes[12..16]) != ENTRY_SIZE
       || GetU32(bytes[20..24]) != 0 {
      return IndexIncompatible, null;
    }
    var count := GetU32(bytes[16..20]);
    if count != rowCount { return IndexCorrupt, null; }
    if INDEX_HEADER_SIZE + ENTRY_SIZE * count != |bytes| { return IndexCorrupt, null; }
    var made := CreateSized(count, reliable);
    if made == null { return IndexAllocError, null; }
    status := LoadEntries(made, bytes[INDEX_HEADER_SIZE..], count);
    if status == IndexOk { index := made; }
  }

  // ----- rebuilding -----

  /** The ids of the table's rows, as many as its header counts. */
  ghost function TableIds(volume: Volume): (ids: seq<int32>)
    requires ReadHeader(volume.table.Now()).Good?
    reads volume`table
    ensures |ids| == ReadHeader(volume.table.Now()).count
  {
    IdsOf(Decoded(volume.table.Now(), ReadHeader(volume.table.Now()).count))
  }

  /** Nothing fails, the table can be read, and an index file can count its rows. */
  ghost predicate Undisturbed(volume: Volume)
    reads volume`world, volume`table, volume`reliable
  {
    && volume.reliable && volume.world.Journal().None?
    && ReadHeader(volume.table.Now()).Good? && ReadHeader(volume.table.Now()).count < U32
  }

  lemma EmptyMap(es: seq<Entry>)
    ensures MapOf(es[..0]) == Some(map[])
  {
  }

  /** The loop of `index_rebuild_from_table`. */
  method InsertRows(index: Index, table: Table) returns (status: IndexStatus)
    requires index.Valid() && index.M == map[] && index.entryCount == 0 && SizedFor(index, table.rowCount)
    requires table.Sized()
    modifies index, index.buckets, index.nodes
    ensures index.Valid() && index.buckets == old(index.buckets)
    ensures status in {IndexOk, IndexDuplicatePrimaryKey, IndexAllocError, IndexIoError}
    ensures table.volume.reliable && index.ample ==> status in {IndexOk, IndexDuplicatePrimaryKey}
    ensures var ids := IdsOf(Decoded(table.Image(), table.rowCount));
            && (status == IndexOk ==> Distinct(ids) && ExactIndex(ids, index.M) && index.entryCount == |ids|)
            && (status == IndexDuplicatePrimaryKey ==> !Distinct(ids))
  {
    hide Index.Valid, TrueSize, TrueOffset, Decoded, MapOf, RowEntries, ExactIndex, Distinct, IdsOf, LoadLimit;
    ghost var ids := IdsOf(Decoded(table.Image(), table.rowCount));
    ghost var es := RowEntries(ids);
    var scan := new RowScanner(table);
    RebuiltMap(ids);
    EmptyMap(es);
    while true
      invariant index.Valid() && index.buckets == old(index.buckets) && fresh(index.nodes - old(index.nodes))
      invariant scan.table == table && scan.rowCount == table.rowCount && scan.nextRow <= scan.rowCount
      invariant fresh(scan)
      invariant MapOf(es[..scan.nextRow]) == Some(index.M) && index.entryCount == scan.nextRow
      decreases scan.rowCount - scan.nextRow
    {
      ghost var k := scan.nextRow;
      var s, row, offset := scan.Next();
      if s == ScanEnd {
        assert es[..k] == es;
        return IndexOk;
      }
      if s != ScanOk { return IndexIoError; }
      SlotInside(k, table.rowCount);
      MapOfNext(es, k);
      var inserted := index.Insert(row.id, offset, false);
      if inserted == IndexDuplicateKey {
        MapOfPrefix(es, k + 1);
        return IndexDuplicatePrimaryKey;
      }
      if inserted != IndexOk { return inserted; }
    }
  }

  /**
   `index_rebuild`: a repeated id is the only reason to report a duplicate primary key, and
   then the old index file is left alone; success means the exact index is on file.
   */
  method Rebuild(volume: Volume) returns (status: IndexStatus, ghost tested: bool)
    requires volume.Valid()
    modifies volume`index, volume`entries, volume`world, volume`history
    ensures volume.Valid() && NoInsertSince(old(volume.history), volume.history)
    ensures volume.world == old(volume.world).(entries := volume.world.entries)
    ensures volume.world.Journal() == old(volume.world.Journal())
    ensures status in {IndexOk, IndexDuplicatePrimaryKey, IndexAllocError, IndexIoError, IndexCorrupt,
                       IndexPersistError}
    ensures status == IndexCorrupt && volume.reliable ==> ReadHeader(volume.table.Now()).Bad?
    ensures volume.reliable ==> tested
    ensures status in {IndexOk, IndexDuplicatePrimaryKey} ==>
              ReadHeader(volume.table.Now()).Good? && (tested ==> volume.world.Journal().None?)
    ensures status == IndexDuplicatePrimaryKey ==>
              !Distinct(TableIds(volume)) && volume.index == old(volume.index)
    ensures status == IndexOk ==> Distinct(TableIds(volume)) && HoldsExact(volume.index, TableIds(volume))
    ensures volume.index == old(volume.index)
            || (ReadHeader(volume.table.Now()).Good? && HoldsExact(volume.index, TableIds(volume)))
    ensures Undisturbed(volume) ==>
              status == if Distinct(TableIds(volume)) then IndexOk else IndexDuplicatePrimaryKey
  {
    hide Index.Valid, ReadHeader, ExactIndex, Distinct, FileHolds, Decoded, IdsOf, HoldsExact, TrueSize, P.Runs,
      LoadLimit;
    var st, table;
    st, table, tested := volume.OpenReadOnly();
    if st != TableOk {
      return if st == TableCorrupt || st == TableIncompatible then IndexCorrupt else IndexIoError, tested;
    }
    AcceptedHeader(volume.table.Now());
    var index;
    status, index := BuildFrom(table);
    if status != IndexOk { return; }
    ghost var ids := TableIds(volume);
    status := Persist(index, volume);
    ExactHeld(volume.index, ids, index.M);
  }

  lemma ExactHeld(file: Option<seq<byte>>, ids: seq<int32>, m: Map)
    requires ExactIndex(ids, m)
    ensures FileHolds(file, m, |ids|) ==> HoldsExact(file, ids)
  {
    hide ExactIndex, FileHolds;
  }

  method BuildFrom(table: Table) returns (status: IndexStatus, index: Index?)
    requires table.Sized()
    ensures status in {IndexOk, IndexDuplicatePrimaryKey, IndexAllocError, IndexIoError}
    ensures table.volume.reliable && table.rowCount < U32 ==> status in {IndexOk, IndexDuplicatePrimaryKey}
    ensures var ids := IdsOf(Decoded(table.Image(), table.rowCount));
            && (status == IndexOk ==> (index != null && index.Valid()
                  && Distinct(ids) && ExactIndex(ids, index.M) && index.entryCount == |ids|))
            && (status == IndexDuplicatePrimaryKey ==> !Distinct(ids))
  {
    hide Index.Valid, ExactIndex, Distinct, Decoded, IdsOf;
    index := CreateSized(table.rowCount, table.volume.reliable);
    if index == null { return IndexAllocError, null; }
    status := InsertRows(index, table);
  }

  /**
   `index_load_or_rebuild`. A file that loads is left alone; one that is refused is replaced by
   the exact index, if it can be.
   */
  method LoadOrRebuild(volume: Volume) returns (status: IndexStatus, index: Index?)
    requires volume.Valid()
    modifies volume`index, volume`entries, volume`world, volume`history
    ensures volume.Valid() && NoInsertSince(old(volume.history), volume.history)
    ensures volume.world == old(volume.world).(entries := volume.world.entries)
    ensures volume.world.Journal() == old(volume.world.Journal())
    ensures status == IndexOk <==> index != null
    ensures status in {IndexOk, IndexDuplicatePrimaryKey} ==> ReadHeader(volume.table.Now()).Good?
    ensures status == IndexOk ==>
              && fresh(index) && fresh(index.buckets) && fresh(index.nodes) && index.Valid()
              && LoadIndex(volume.index, ReadHeader(volume.table.Now()).count) == Loaded(index.M)
              && Fitting(index, ReadHeader(volume.table.Now()).count) && index.ample == volume.reliable
    ensures status == IndexDuplicatePrimaryKey ==> !Distinct(TableIds(volume))
    ensures Undisturbed(volume) && Distinct(TableIds(volume)) ==> status == IndexOk
    ensures status == IndexOk && ExactOrRefused(old(volume.index), TableIds(volume)) ==>
              ExactIndex(TableIds(volume), index.M)
    ensures volume.index == old(volume.index)
            || (ReadHeader(volume.table.Now()).Good? && HoldsExact(volume.index, TableIds(volume)))
    ensures Undisturbed(volume) && LoadIndex(old(volume.index), ReadHeader(volume.table.Now()).count).Loaded? ==>
              status == IndexOk && volume.index == old(volume.index)
  {
    hide ReadHeader, LoadIndex, ExactIndex, Distinct, Index.Valid, HoldsExact, P.Runs, Fitting, SizedFor;
    ghost var tested;
    status, index, tested := Load(volume);
    if status == IndexNotFound || status == IndexCorrupt || status == IndexIncompatible {
      status, tested := Rebuild(volume);
      if status != IndexOk { return status, null; }
      ghost var m := HeldMap(volume.index, TableIds(volume));
      status, index, tested := Load(volume);
      assert status == IndexOk ==> Loaded(index.M) == Loaded(m);
    }
    if index != null { LoadedFits(volume.index, index, ReadHeader(volume.table.Now()).count); }
  }

  lemma HeldMap(file: Option<seq<byte>>, ids: seq<int32>) returns (m: Map)
    requires HoldsExact(file, ids)
    ensures |ids| < U32 && ExactIndex(ids, m) && LoadIndex(file, |ids|) == Loaded(m)
  {
    hide LoadIndex, ExactIndex;
    m :| ExactIndex(ids, m) && FileHolds(file, m, |ids|);
  }

  /** The index has an entry for each row, and one more can be added. */
  ghost predicate Fitting(index: Index, rows: nat)
    reads index
  {
    index.entryCount == rows && CanAdd(rows, index.buckets.Length)
  }

  lemma LoadedFits(file: Option<seq<byte>>, index: Index, rows: uint64)
    requires index.Valid() && LoadIndex(file, rows) == Loaded(index.M) && SizedFor(index, rows)
    ensures Fitting(index, rows)
  {
    LoadedSize(file, rows);
    LoadedCount(file, rows);
    assert Counted(index.nodes, index.M, index.entryCount);
  }

  lemma LoadedCount(file: Option<seq<byte>>, rows: uint64)
    requires LoadIndex(file, rows).Loaded?
    ensures rows < U32
  {
    hide MapOf, DecodeEntries, PutLe, GetLe;
  }

  lemma SlotsInside(count: nat)
    ensures forall k :: 0 <= k < count ==> TrueOffset(k) + ROW_SIZE <= TrueSize(count)
  {
    hide TrueOffset, TrueSize;
    forall k | 0 <= k < count ensures TrueOffset(k) + ROW_SIZE <= TrueSize(count) { SlotInside(k, count); }
  }

  /** `index_validate_lookup`: an entry is believed only if it points at a row with its key. */
  method ValidateLookup(table: Table, key: int32, offset: int64) returns (status: IndexStatus, row: Row)
    ensures status in {IndexOk, IndexInvalidOffset, IndexKeyMismatch}
    ensures status == IndexOk ==>
              exists k :: 0 <= k < table.rowCount && row == Decoded(table.Image(), table.rowCount)[k] && row.id == key
                          && TrueOffset(k) == offset
    ensures table.volume.reliable && table.Sized() ==>
              forall k :: 0 <= k < table.rowCount && TrueOffset(k) == offset ==>
                            status == if Decoded(table.Image(), table.rowCount)[k].id == key then IndexOk
                                      else IndexKeyMismatch
  {
    hide SlotAt, TrueOffset, TrueSize, Deserialize, Decoded;
    row := Row(0, Zeros(NAME_SIZE));
    if offset < 0 { return IndexInvalidOffset, row; }
    UniqueRow(offset);
    SlotsInside(table.rowCount);
    var sized, size := table.FileSize();
    if sized != TableOk { return IndexInvalidOffset, row; }
    if !IsValidRowOffset(offset, size, table.rowCount) { return IndexInvalidOffset, row; }
    var read;
    read, row := table.ReadRowAtOffset(offset);
    if read != TableOk { return IndexInvalidOffset, row; }
    if row.id != key { return IndexKeyMismatch, row; }
    return IndexOk, row;
  }
}
