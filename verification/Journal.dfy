/**
 The insert rollback journal (src/storage.c): how `persist_insert_journal` lays out its
 128 bytes, what `recover_insert_journal` checks before it trusts them, and the FNV-1a
 checksum that protects them.
 */
module Journal {
  import opened Bytes
  import opened Layout

  const MAGIC: uint32 := 0x4A4C5153
  const VERSION: uint32 := 1
  const SIZE: nat := 128
  const CHECKSUM_AT: nat := 108

  /** A row as it stands in its slot of the table file. */
  type Slot = s: seq<byte> | |s| == 36 witness Zeros(36)

  /** A table name: at most 31 bytes, none of them NUL. */
  type TableName = s: seq<byte> | |s| <= 31 && 0 !in s witness []

  // ----- checksum -----

  const FNV_START: uint32 := 2166136261
  const FNV_PRIME: nat := 16777619
  const FNV_INVERSE: nat := 899433627

  function FnvStep(hash: uint32, b: byte): uint32 {
    (Xor(hash, b) * FNV_PRIME) % U32
  }

  function Fnv(s: seq<byte>): uint32 {
    if s == [] then FNV_START else FnvStep(Fnv(s[..|s| - 1]), s[|s| - 1])
  }

  /** The journal with its checksum field read as zero. */
  function Masked(bytes: seq<byte>): (r: seq<byte>)
    requires |bytes| == SIZE
    ensures |r| == SIZE
  {
    bytes[..CHECKSUM_AT] + Zeros(4) + bytes[CHECKSUM_AT + 4..]
  }

  function Checksum(bytes: seq<byte>): uint32
    requires |bytes| == SIZE
  {
    Fnv(Masked(bytes))
  }

  /** The loop of `journal_checksum`, which skips the checksum field as it goes. */
  method JournalChecksum(bytes: array<byte>) returns (hash: uint32)
    requires bytes.Length == SIZE
    ensures hash == Checksum(bytes[..])
  {
    hash := FNV_START;
    ghost var masked := Masked(bytes[..]);
    for i := 0 to SIZE
      invariant hash == Fnv(masked[..i])
    {
      var b := bytes[i];
      if i >= CHECKSUM_AT && i < CHECKSUM_AT + 4 {
        b := 0;
      }
      hash := (Xor(hash, b) * FNV_PRIME) % U32;
      assert masked[..i + 1][..i] == masked[..i];
    }
    assert masked[..SIZE] == masked;
  }

  /** The published FNV-1a values of the empty string and of "a". */
  lemma ChecksumVectors()
    ensures Fnv([]) == 0x811C9DC5 && Fnv([0x61]) == 0xE40C292C
  {
    hide Xor;
    assert [0x61][..0] == [];
    XorZero(0x102393B);
    XorIs(0x2047277, 0x1, 0x2047276);
    XorIs(0x408E4EE, 0x3, 0x408E4ED);
    XorIs(0x811C9DC, 0x6, 0x811C9DA);
    XorIs(0x102393B8, 0xC, 0x102393B4);
    XorIs(0x20472771, 0x18, 0x20472769);
    XorIs(0x408E4EE2, 0x30, 0x408E4ED2);
    XorIs(0x811C9DC5, 0x61, 0x811C9DA4);
  }

  lemma XorIs(a: nat, b: nat, x: nat)
    requires Xor(a / 2, b / 2) == x / 2 && x % 2 == Bit(a, b) && a > 0
    ensures Xor(a, b) == x
  {
  }

  /** Multiplying by the odd FNV prime loses nothing modulo 2^32. */
  lemma PrimeInvertible(x: uint32)
    ensures ((x * FNV_PRIME) % U32 * FNV_INVERSE) % U32 == x
  {
    var q, r := (x * FNV_PRIME) / U32, (x * FNV_PRIME) % U32;
    assert x * 16777619 == q * U32 + r;
    assert 16777619 * 899433627 == 3513497 * U32 + 1;
    assert r * 899433627 == x + (x * 3513497 - q * 899433627) * U32;
  }

  /** One step is injective in the running hash and in the byte. */
  lemma FnvStepInjective(h: uint32, h': uint32, b: byte, b': byte)
    requires FnvStep(h, b) == FnvStep(h', b')
    ensures b == b' ==> h == h'
    ensures h == h' ==> b == b'
  {
    XorWithinWord(h, b);
    XorWithinWord(h', b');
    PrimeInvertible(Xor(h, b));
    PrimeInvertible(Xor(h', b'));
    XorCancel(h, b);
    XorCancel(h', b');
    XorCommutes(h, b); XorCancel(b, h);
    XorCommutes(h', b'); XorCancel(b', h');
  }

  lemma XorWithinWord(h: uint32, b: byte)
    ensures Xor(h, b) < U32
  {
    assert Pow2(16) == 65536 && Pow2(32) == U32 by {
      assert Pow2(8) == 256;
      assert Pow2(24) == 65536 * 256;
    }
    XorBound(h, b, 32);
  }

  ghost predicate DifferOnlyAt(a: seq<byte>, b: seq<byte>, i: nat) {
    |a| == |b| && i < |a| && a[i] != b[i] && a[..i] == b[..i] && a[i + 1..] == b[i + 1..]
  }

  lemma {:induction false} FnvDetects(a: seq<byte>, b: seq<byte>, i: nat)
    requires DifferOnlyAt(a, b, i)
    ensures Fnv(a) != Fnv(b)
  {
    var k := |a| - 1;
    if Fnv(a) == Fnv(b) {
      FnvStepInjective(Fnv(a[..k]), Fnv(b[..k]), a[k], b[k]);
      if i < k {
        assert a[k] == a[i + 1..][k - i - 1] == b[k];
        assert a[..k][i + 1..] == a[i + 1..][..k - i - 1];
        assert b[..k][i + 1..] == b[i + 1..][..k - i - 1];
        assert a[..k][..i] == a[..i] && b[..k][..i] == b[..i];
        FnvDetects(a[..k], b[..k], i);
      }
    }
  }

  predicate PassesChecksum(bytes: seq<byte>)
    requires |bytes| == SIZE
  {
    GetU32(bytes[CHECKSUM_AT..CHECKSUM_AT + 4]) == Checksum(bytes)
  }

  /** No journal can be turned into another accepted one by changing a single byte. */
  lemma SingleByteChangeDetected(a: seq<byte>, b: seq<byte>, i: nat)
    requires |a| == SIZE && DifferOnlyAt(a, b, i)
    ensures !(PassesChecksum(a) && PassesChecksum(b))
  {
    var at := CHECKSUM_AT;
    var fa, fb := a[at..at + 4], b[at..at + 4];
    if at <= i < at + 4 {
      assert a[..at] == a[..i][..at] && b[..at] == b[..i][..at];
      assert a[at + 4..] == a[i + 1..][at + 3 - i..] && b[at + 4..] == b[i + 1..][at + 3 - i..];
      assert Masked(a) == Masked(b);
      assert fa[i - at] != fb[i - at];
    } else {
      forall j | 0 <= j < SIZE && j != i ensures a[j] == b[j] {
        if j < i { assert a[j] == a[..i][j] == b[..i][j]; }
        else { assert a[j] == a[i + 1..][j - i - 1] == b[i + 1..][j - i - 1]; }
      }
      assert fa == fb;
      assert DifferOnlyAt(Masked(a), Masked(b), i);
      FnvDetects(Masked(a), Masked(b), i);
    }
  }

  // ----- layout -----

  function Preamble(): (r: seq<byte>)
    ensures |r| == 16
  {
    PutU32(MAGIC) + PutU32(VERSION) + PutU32(SIZE) + Zeros(4)
  }

  function Counts(prev: uint64, next: uint64, offset: uint64): (r: seq<byte>)
    ensures |r| == 24
  {
    PutU64(prev) + PutU64(next) + PutU64(offset)
  }

  function Identity(name: TableName): (r: seq<byte>)
    ensures |r| == 32
  {
    name + Zeros(32 - |name|)
  }

  /** Everything `persist_insert_journal` writes, with the checksum field as given. */
  function Fields(name: TableName, prev: uint64, next: uint64, offset: uint64, slot: Slot, sum: uint32): (r: seq<byte>)
    ensures |r| == SIZE
  {
    Preamble() + Counts(prev, next, offset) + Identity(name) + slot + PutU32(sum) + Zeros(16)
  }

  function Encode(name: TableName, prev: uint64, next: uint64, offset: uint64, slot: Slot): (r: seq<byte>)
    ensures |r| == SIZE
  {
    Fields(name, prev, next, offset, slot, Checksum(Fields(name, prev, next, offset, slot, 0)))
  }

  /**
   The acceptance test of `recover_insert_journal`: the previous row count when every
   check passes, nothing when the journal counts as corrupt.
   */
  function Decode(bytes: seq<byte>, name: TableName): (r: Option<uint64>)
  {
    if |bytes| != SIZE then None else
    if GetU32(bytes[0..4]) != MAGIC || GetU32(bytes[4..8]) != VERSION
       || GetU32(bytes[8..12]) != SIZE || GetU32(bytes[12..16]) != 0
       || GetU32(bytes[108..112]) != Checksum(bytes) then None else
    var prev := GetU64(bytes[16..24]);
    var next := GetU64(bytes[24..32]);
    var offset := GetU64(bytes[32..40]);
    if UpToNul(bytes[40..71]) != name then None else
    match CheckedAdd(prev, 1)
    case None => None
    case Some(expected) =>
      if next != expected then None else
      if OffsetForRow(prev) != Some(offset) then None else
      match LogicalSize(prev)
      case None => None
      case Some(oldSize) => if oldSize > LONG_MAX then None else Some(prev)
  }

  /** The fields do not overlap: each comes back from its own range of bytes. */
  lemma FieldsApart(name: TableName, prev: uint64, next: uint64, offset: uint64, slot: Slot, sum: uint32)
    ensures var b := Fields(name, prev, next, offset, slot, sum);
            && b[0..16] == Preamble() && b[16..40] == Counts(prev, next, offset)
            && b[40..72] == Identity(name) && b[72..108] == slot
            && b[108..112] == PutU32(sum) && b[112..] == Zeros(16)
            && b[..108] == Preamble() + Counts(prev, next, offset) + Identity(name) + slot
  {
  }

  /** The sixteen bytes every journal starts with: "SQLJ", version 1, 128 bytes, and a reserved zero. */
  lemma PreambleBytes()
    ensures Preamble() == [0x53, 0x51, 0x4C, 0x4A, 1, 0, 0, 0, 128, 0, 0, 0, 0, 0, 0, 0]
  {
    hide PutLe, PutU32;
    FourBytes(0x53, 0x51, 0x4C, 0x4A);
    FourBytes(1, 0, 0, 0);
    FourBytes(128, 0, 0, 0);
  }

  lemma PreambleApart(b: seq<byte>)
    requires |b| == SIZE && b[0..16] == Preamble()
    ensures b[0..4] == PutU32(MAGIC) && b[4..8] == PutU32(VERSION) && b[8..12] == PutU32(SIZE)
            && b[12..16] == Zeros(4)
  {
    var p := Preamble();
    assert b[0..4] == p[0..4] && b[4..8] == p[4..8] && b[8..12] == p[8..12] && b[12..16] == p[12..16];
  }

  lemma CountsApart(b: seq<byte>, prev: uint64, next: uint64, offset: uint64)
    requires |b| == SIZE && b[16..40] == Counts(prev, next, offset)
    ensures b[16..24] == PutU64(prev) && b[24..32] == PutU64(next) && b[32..40] == PutU64(offset)
  {
    hide PutLe;
    var c := Counts(prev, next, offset);
    ThreeFields(PutU64(prev), PutU64(next), PutU64(offset));
    assert b[16..24] == c[0..8] && b[24..32] == c[8..16] && b[32..40] == c[16..24];
  }

  lemma IdentityApart(b: seq<byte>, name: TableName)
    requires |b| == SIZE && b[40..72] == Identity(name)
    ensures UpToNul(b[40..71]) == name
  {
    assert b[40..71] == b[40..72][..31] == name + Zeros(31 - |name|);
    UpToNulOfPadded(name, 31 - |name|);
  }

  lemma ChecksumOfEncode(name: TableName, prev: uint64, next: uint64, offset: uint64, slot: Slot)
    ensures var b := Encode(name, prev, next, offset, slot);
            PassesChecksum(b)
  {
    var unsummed := Fields(name, prev, next, offset, slot, 0);
    var b := Encode(name, prev, next, offset, slot);
    FieldsApart(name, prev, next, offset, slot, 0);
    FieldsApart(name, prev, next, offset, slot, Checksum(unsummed));
    assert Masked(unsummed) == Masked(b);
    FieldsRoundTrip(Checksum(unsummed), 0);
  }

  /**
   A journal built for a table with `prev` rows, whose next slot exists and is
   addressable, passes every check of recovery for that table and decodes to `prev`.
   */
  lemma DecodeEncode(name: TableName, prev: uint64, slot: Slot)
    requires prev + 1 <= U64_MAX && TrueOffset(prev) <= LONG_MAX
    ensures var b := Encode(name, prev, prev + 1, TrueOffset(prev), slot);
            && Decode(b, name) == Some(prev)
            && GetU64(b[24..32]) == prev + 1 && GetU64(b[32..40]) == TrueOffset(prev)
            && UpToNul(b[40..71]) == name && b[72..108] == slot
  {
    hide PutLe, GetLe, Fnv, TrueOffset, TrueSize, UpToNul, Checksum;
    var offset := TrueOffset(prev);
    var b := Encode(name, prev, prev + 1, offset, slot);
    ChecksumOfEncode(name, prev, prev + 1, offset, slot);
    FieldsApart(name, prev, prev + 1, offset, slot, Checksum(Fields(name, prev, prev + 1, offset, slot, 0)));
    PreambleApart(b); CountsApart(b, prev, prev + 1, offset); IdentityApart(b, name);
    FieldsRoundTrip(MAGIC, prev);
    FieldsRoundTrip(VERSION, prev + 1);
    FieldsRoundTrip(SIZE, offset);
    FieldsRoundTrip(0, 0);
    ZeroField();
    SizeBeforeNextRow(prev);
  }

  /** What an accepted journal must be: everything but the row, the name's padding and the last bytes is fixed. */
  ghost predicate Acceptable(bytes: seq<byte>, name: TableName, prev: uint64) {
    && |bytes| == SIZE && PassesChecksum(bytes)
    && prev + 1 <= U64_MAX && TrueOffset(prev) <= U64_MAX && TrueSize(prev) <= LONG_MAX
    && bytes[0..16] == Preamble() && bytes[16..40] == Counts(prev, prev + 1, TrueOffset(prev))
    && UpToNul(bytes[40..71]) == name
  }

  /** The checks of recovery accept exactly the journals laid out like the ones that are built. */
  lemma DecodeExact(bytes: seq<byte>, name: TableName, prev: uint64)
    ensures Decode(bytes, name) == Some(prev) <==> Acceptable(bytes, name, prev)
  {
    hide Fnv, PutLe, GetLe, TrueOffset, TrueSize, UpToNul, Checksum;
    if |bytes| == SIZE {
      PreambleExact(bytes);
      CountsExact(bytes);
      if Acceptable(bytes, name, prev) {
        CountsApart(bytes, prev, prev + 1, TrueOffset(prev));
        FieldsRoundTrip(0, prev);
        FieldsRoundTrip(0, prev + 1);
        FieldsRoundTrip(0, TrueOffset(prev));
      }
    }
  }

  lemma PreambleExact(b: seq<byte>)
    requires |b| == SIZE
    ensures b[0..16] == Preamble() <==>
            GetU32(b[0..4]) == MAGIC && GetU32(b[4..8]) == VERSION && GetU32(b[8..12]) == SIZE && GetU32(b[12..16]) == 0
  {
    hide PutLe, GetLe;
    ZeroField();
    FieldsRoundTrip(MAGIC, 0);
    FieldsRoundTrip(VERSION, 0);
    FieldsRoundTrip(SIZE, 0);
    FieldsRoundTrip(0, 0);
    if b[0..16] == Preamble() { PreambleApart(b); }
    assert b[0..16] == b[0..4] + b[4..8] + b[8..12] + b[12..16];
  }

  lemma CountsExact(b: seq<byte>)
    requires |b| == SIZE
    ensures b[16..40] == Counts(GetU64(b[16..24]), GetU64(b[24..32]), GetU64(b[32..40]))
  {
    hide PutLe, GetLe;
    assert b[16..40] == b[16..24] + b[24..32] + b[32..40];
  }

  // ----- building and reading the buffer in place -----

  /** `put_u32_le` and `put_u64_le`: the bytes of v, lowest first, from index `at` on. */
  method PutLeAt(dest: array<byte>, at: nat, v: nat, n: nat)
    requires at + n <= dest.Length
    modifies dest
    ensures dest[..] == old(dest[..at]) + PutLe(v, n) + old(dest[at + n..])
  {
    var left := v;
    for i := 0 to n
      invariant dest[..at] == old(dest[..at]) && dest[at + n..] == old(dest[at + n..])
      invariant dest[at..at + i] + PutLe(left, n - i) == PutLe(v, n)
    {
      ghost var before := dest[at..at + i];
      dest[at + i] := left % 256;
      assert dest[at..at + i + 1] == before + [left % 256];
      assert before + ([left % 256] + PutLe(left / 256, n - i - 1))
          == (before + [left % 256]) + PutLe(left / 256, n - i - 1);
      left := left / 256;
    }
    assert dest[..] == dest[..at] + dest[at..at + n] + dest[at + n..];
    assert dest[at..at + n] == PutLe(v, n) by { assert PutLe(left, 0) == []; }
  }

  /** `get_u32_le` and `get_u64_le`. */
  method GetLeAt(src: array<byte>, at: nat, n: nat) returns (v: nat)
    requires at + n <= src.Length
    ensures v == GetLe(src[at..at + n])
  {
    v := 0;
    var scale: nat := 1;
    for i := 0 to n
      invariant scale == Pow256(i)
      invariant v == GetLe(src[at..at + i])
    {
      GetLeAppend(src[at..at + i], src[at + i]);
      assert src[at..at + i + 1] == src[at..at + i] + [src[at + i]];
      v := v + src[at + i] * scale;
      scale := 256 * scale;
    }
  }

  lemma {:induction false} GetLeAppend(s: seq<byte>, b: byte)
    ensures GetLe(s + [b]) == GetLe(s) + b * Pow256(|s|)
  {
    if s == [] {
      assert [] + [b] == [b] && [b][1..] == [];
    } else {
      assert (s + [b])[1..] == s[1..] + [b];
      GetLeAppend(s[1..], b);
      MulShift(b, Pow256(|s| - 1));
    }
  }

  lemma MulShift(b: nat, p: nat)
    ensures b * (256 * p) == 256 * (b * p)
  {
  }

  method CopyAt(dest: array<byte>, at: nat, src: seq<byte>)
    requires at + |src| <= dest.Length
    modifies dest
    ensures dest[..] == old(dest[..at]) + src + old(dest[at + |src|..])
  {
    for i := 0 to |src|
      invariant dest[..] == old(dest[..at]) + src[..i] + old(dest[at + i..])
    {
      dest[at + i] := src[i];
    }
  }

  /** The next field of a buffer that is zero from `at` on. */
  method PutNext(bytes: array<byte>, ghost front: seq<byte>, at: nat, v: nat, n: nat)
    requires at == |front| && at + n <= bytes.Length && bytes[..] == front + Zeros(bytes.Length - at)
    modifies bytes
    ensures bytes[..] == front + PutLe(v, n) + Zeros(bytes.Length - at - n)
  {
    hide PutLe;
    PutLeAt(bytes, at, v, n);
    assert old(bytes[..at]) == old(bytes[..])[..at] == front;
    assert old(bytes[at + n..]) == old(bytes[..])[at + n..] == Zeros(bytes.Length - at - n);
  }

  method CopyNext(bytes: array<byte>, ghost front: seq<byte>, at: nat, src: seq<byte>)
    requires at == |front| && at + |src| <= bytes.Length && bytes[..] == front + Zeros(bytes.Length - at)
    modifies bytes
    ensures bytes[..] == front + src + Zeros(bytes.Length - at - |src|)
  {
    CopyAt(bytes, at, src);
    assert old(bytes[..at]) == old(bytes[..])[..at] == front;
    assert old(bytes[at + |src|..]) == old(bytes[..])[at + |src|..] == Zeros(bytes.Length - at - |src|);
  }

  method PutPreamble(bytes: array<byte>)
    requires bytes.Length == SIZE && bytes[..] == Zeros(SIZE)
    modifies bytes
    ensures bytes[..] == Preamble() + Zeros(112)
  {
    hide PutLe;
    assert Zeros(SIZE) == [] + Zeros(SIZE);
    PutNext(bytes, [], 0, MAGIC, 4);
    assert [] + PutU32(MAGIC) == PutU32(MAGIC);
    PutNext(bytes, PutU32(MAGIC), 4, VERSION, 4);
    PutNext(bytes, PutU32(MAGIC) + PutU32(VERSION), 8, SIZE, 4);
    assert Zeros(116) == Zeros(4) + Zeros(112);
  }

  method PutCounts(bytes: array<byte>, prev: uint64, next: uint64, offset: uint64)
    requires bytes.Length == SIZE && bytes[..] == Preamble() + Zeros(112)
    modifies bytes
    ensures bytes[..] == Preamble() + Counts(prev, next, offset) + Zeros(88)
  {
    hide PutLe, Preamble;
    var front := Preamble();
    PutNext(bytes, front, 16, prev, 8);
    PutNext(bytes, front + PutU64(prev), 24, next, 8);
    PutNext(bytes, front + PutU64(prev) + PutU64(next), 32, offset, 8);
    assert front + PutU64(prev) + PutU64(next) + PutU64(offset) == front + Counts(prev, next, offset);
  }

  /** The buffer filled by `persist_insert_journal`. */
  method BuildJournal(name: TableName, prev: uint64, next: uint64, offset: uint64, slot: Slot)
    returns (bytes: array<byte>)
    ensures fresh(bytes) && bytes[..] == Encode(name, prev, next, offset, slot)
  {
    bytes := new byte[SIZE](_ => 0);
    hide PutLe, Fnv, Preamble, Counts;
    assert bytes[..] == Zeros(SIZE);
    PutPreamble(bytes);
    PutCounts(bytes, prev, next, offset);
    ghost var head := Preamble() + Counts(prev, next, offset);
    CopyNext(bytes, head, 40, name);
    assert name + Zeros(32 - |name|) == Identity(name);
    assert head + name + Zeros(88 - |name|) == head + Identity(name) + Zeros(56);
    CopyNext(bytes, head + Identity(name), 72, slot);
    ghost var front := head + Identity(name) + slot;
    assert bytes[..] == front + PutU32(0) + Zeros(16) by { ZeroField(); }
    var sum := JournalChecksum(bytes);
    PutLeAt(bytes, CHECKSUM_AT, sum, 4);
    assert bytes[..] == front + PutU32(sum) + Zeros(16);
  }

  lemma ZeroField()
    ensures PutU32(0) == Zeros(4)
  {
  }

  /** The checks of `recover_insert_journal` on what it has read. */
  method DecodeJournal(bytes: array<byte>, name: TableName) returns (r: Option<uint64>)
    ensures r == Decode(bytes[..], name)
  {
    hide PutLe, GetLe, Fnv, Masked, Checksum, UpToNul, OffsetForRow, LogicalSize, TrueOffset, TrueSize;
    if bytes.Length != SIZE { return None; }
    ghost var b := bytes[..];
    var magic := GetLeAt(bytes, 0, 4);
    var version := GetLeAt(bytes, 4, 4);
    var size := GetLeAt(bytes, 8, 4);
    var reserved := GetLeAt(bytes, 12, 4);
    var stored := GetLeAt(bytes, CHECKSUM_AT, 4);
    var sum := JournalChecksum(bytes);
    assert b[0..4] == bytes[0..4] && b[4..8] == bytes[4..8] && b[8..12] == bytes[8..12] && b[12..16] == bytes[12..16];
    assert b[108..112] == bytes[108..112];
    if magic != MAGIC || version != VERSION || size != SIZE || reserved != 0 || stored != sum {
      return None;
    }
    var prev := GetLeAt(bytes, 16, 8);
    var next := GetLeAt(bytes, 24, 8);
    var offset := GetLeAt(bytes, 32, 8);
    assert b[16..24] == bytes[16..24] && b[24..32] == bytes[24..32] && b[32..40] == bytes[32..40];
    assert prev == GetU64(b[16..24]) && next == GetU64(b[24..32]) && offset == GetU64(b[32..40]);
    if UpToNul(bytes[40..71]) != name { return None; }
    var expected := CheckedAdd(prev, 1);
    if expected.None? || next != expected.value { return None; }
    if OffsetForRow(prev) != Some(offset) { return None; }
    var oldSize := LogicalSize(prev);
    if oldSize.None? || oldSize.value > LONG_MAX { return None; }
    return Some(prev);
  }
}
