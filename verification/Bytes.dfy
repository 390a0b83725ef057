/**
 Fixed-width integers as the C code uses them (src/util.c): 64-bit arithmetic that
 reports overflow, two's complement casts, little-endian fields, and the exclusive-or
 of unsigned words, all over mathematical integers with the width written out.
 */
module Bytes {

  datatype Option<+T> = None | Some(value: T)

  type byte = b: int | 0 <= b < 256

  const U32: nat := 0x1_0000_0000
  const U64: nat := 0x1_0000_0000_0000_0000
  const U64_MAX: nat := U64 - 1
  const LONG_MAX: nat := 0x7FFF_FFFF_FFFF_FFFF

  type int32 = i: int | -0x8000_0000 <= i < 0x8000_0000
  type int64 = i: int | -0x8000_0000_0000_0000 <= i < 0x8000_0000_0000_0000
  type uint32 = i: int | 0 <= i < U32
  type uint64 = i: int | 0 <= i < U64

  // ----- checked 64-bit arithmetic -----

  function CheckedMul(a: uint64, b: uint64): (r: Option<uint64>)
    ensures r == if a * b <= U64_MAX then Some(a * b) else None
  {
    if a != 0 && b > U64_MAX / a then
      DivisionBound(a, b);
      None
    else
      DivisionBound(a, b);
      Some(a * b)
  }

  /** The C test `b > UINT64_MAX / a` is exactly "the product does not fit". */
  lemma DivisionBound(a: nat, b: nat)
    ensures a != 0 ==> (b > U64_MAX / a <==> a * b > U64_MAX)
  {
    if a != 0 {
      var q, r := U64_MAX / a, U64_MAX % a;
      assert U64_MAX == a * q + r && 0 <= r < a;
      if b > q {
        assert a * b >= a * (q + 1) by { MulMono(a, q + 1, b); }
      } else {
        assert a * b <= a * q by { MulMono(a, b, q); }
      }
    }
  }

  lemma MulMono(a: nat, b: nat, c: nat)
    requires b <= c
    ensures a * b <= a * c
  {
  }

  function CheckedAdd(a: uint64, b: uint64): (r: Option<uint64>)
    ensures r == if a + b <= U64_MAX then Some(a + b) else None
  {
    if b > U64_MAX - a then None else Some(a + b)
  }

  // ----- casts -----

  function ToU32(i: int32): (u: uint32)
    ensures FromU32(u) == i
  {
    if i < 0 then i + U32 else i
  }

  function FromU32(u: uint32): int32 {
    if u < 0x8000_0000 then u else u - U32
  }

  function ToU64(i: int64): (u: uint64)
    ensures FromU64(u) == i
  {
    if i < 0 then i + U64 else i
  }

  function FromU64(u: uint64): int64 {
    if u < 0x8000_0000_0000_0000 then u else u - U64
  }

  // ----- little-endian fields -----

  function Pow256(n: nat): (p: nat)
    ensures p > 0
  {
    if n == 0 then 1 else 256 * Pow256(n - 1)
  }

  lemma Pow256Values()
    ensures Pow256(4) == U32 && Pow256(8) == U64
  {
    assert Pow256(3) == 256 * 256 * 256;
    assert Pow256(6) == 256 * 256 * 256 * Pow256(3);
  }

  function PutLe(v: nat, n: nat): (s: seq<byte>)
    ensures |s| == n
  {
    if n == 0 then [] else [v % 256] + PutLe(v / 256, n - 1)
  }

  function GetLe(s: seq<byte>): nat {
    if s == [] then 0 else s[0] + 256 * GetLe(s[1..])
  }

  lemma {:induction false} GetPut(v: nat, n: nat)
    requires v < Pow256(n)
    ensures GetLe(PutLe(v, n)) == v
  {
    if n > 0 {
      GetPut(v / 256, n - 1);
      assert PutLe(v, n)[1..] == PutLe(v / 256, n - 1);
    }
  }

  lemma {:induction false} PutGet(s: seq<byte>)
    ensures GetLe(s) < Pow256(|s|) && PutLe(GetLe(s), |s|) == s
  {
    if s != [] {
      PutGet(s[1..]);
      var v := GetLe(s);
      assert v % 256 == s[0] && v / 256 == GetLe(s[1..]);
      assert s == [s[0]] + s[1..];
    }
  }

  /** Byte i counts the 256^i, so the lowest comes first. */
  lemma {:induction false} PutLeByte(v: nat, n: nat, i: nat)
    requires i < n
    ensures PutLe(v, n)[i] == (v / Pow256(i)) % 256
  {
    if i > 0 {
      PutLeByte(v / 256, n - 1, i - 1);
      QuotientOfQuotient(v, Pow256(i - 1));
    }
  }

  lemma QuotientOfQuotient(v: nat, p: nat)
    requires p > 0
    ensures (v / 256) / p == v / (256 * p)
  {
    var q, r := v / (256 * p), v % (256 * p);
    assert v == 256 * (p * q) + r;
    assert v / 256 == p * q + r / 256;
    assert 0 <= r / 256 < p;
    QuotientIs(v / 256, p, q, r / 256);
  }

  lemma QuotientIs(x: nat, d: nat, q: nat, r: nat)
    requires d > 0 && x == d * q + r && r < d
    ensures x / d == q
  {
    var k := x / d;
    if k < q { MulMono(d, k + 1, q); }
    if k > q { MulMono(d, q + 1, k); }
  }

  function PutU32(v: uint32): (s: seq<byte>)
    ensures |s| == 4 && GetLe(s) == v
  {
    Pow256Values(); GetPut(v, 4);
    PutLe(v, 4)
  }

  function PutU64(v: uint64): (s: seq<byte>)
    ensures |s| == 8 && GetLe(s) == v
  {
    Pow256Values(); GetPut(v, 8);
    PutLe(v, 8)
  }

  function GetU32(s: seq<byte>): (v: uint32)
    requires |s| == 4
    ensures PutU32(v) == s
  {
    Pow256Values(); PutGet(s);
    GetLe(s)
  }

  function GetU64(s: seq<byte>): (v: uint64)
    requires |s| == 8
    ensures PutU64(v) == s
  {
    Pow256Values(); PutGet(s);
    GetLe(s)
  }

  lemma PutLeStep(a: byte, x: nat, n: nat)
    ensures PutLe(a + 256 * x, n + 1) == [a] + PutLe(x, n)
  {
  }

  /** A four-byte field has its lowest byte first. */
  lemma FourBytes(a: byte, b: byte, c: byte, d: byte)
    ensures PutU32(a + 256 * (b + 256 * (c + 256 * d))) == [a, b, c, d]
  {
    hide PutLe;
    PutLeStep(a, b + 256 * (c + 256 * d), 3);
    PutLeStep(b, c + 256 * d, 2);
    PutLeStep(c, d, 1);
    PutLeStep(d, 0, 0);
    assert PutLe(0, 0) == [];
  }

  /** The four-byte and eight-byte fields invert each other in both directions. */
  lemma FieldsRoundTrip(a: uint32, b: uint64)
    ensures GetU32(PutU32(a)) == a && GetU64(PutU64(b)) == b
  {
  }

  /** Fields laid one after another come back from their own ranges. */
  lemma SixFields(a: seq<byte>, b: seq<byte>, c: seq<byte>, d: seq<byte>, e: seq<byte>, f: seq<byte>)
    requires |a| == 4 && |b| == 4 && |c| == 4 && |d| == 4 && |e| == 4 && |f| == 4
    ensures var p := a + b + c + d + e + f;
            p[0..4] == a && p[4..8] == b && p[8..12] == c && p[12..16] == d && p[16..20] == e && p[20..24] == f
  {
  }

  lemma ThreeFields(a: seq<byte>, b: seq<byte>, c: seq<byte>)
    requires |a| == 8 && |b| == 8 && |c| == 8
    ensures (a + b + c)[0..8] == a && (a + b + c)[8..16] == b && (a + b + c)[16..24] == c
  {
  }

  function Zeros(n: nat): (s: seq<byte>)
    ensures |s| == n && forall i :: 0 <= i < n ==> s[i] == 0
  {
    seq(n, i => 0)
  }

  /** The C string held in a buffer: its bytes before the first NUL. */
  function UpToNul(s: seq<byte>): (r: seq<byte>)
    ensures |r| <= |s| && r == s[..|r|] && 0 !in r
    ensures |r| < |s| ==> s[|r|] == 0
  {
    if s == [] || s[0] == 0 then [] else
      var r := UpToNul(s[1..]);
      assert ([s[0]] + r) == s[..1 + |r|];
      [s[0]] + r
  }

  lemma {:induction false} UpToNulOfPadded(s: seq<byte>, n: nat)
    requires 0 !in s
    ensures UpToNul(s + Zeros(n)) == s
  {
    if s == [] {
      assert s + Zeros(n) == Zeros(n);
    } else {
      assert (s + Zeros(n))[1..] == s[1..] + Zeros(n);
      UpToNulOfPadded(s[1..], n);
    }
  }

  // ----- exclusive or of unsigned words -----

  function Bit(a: nat, b: nat): nat {
    if a % 2 == b % 2 then 0 else 1
  }

  function Xor(a: nat, b: nat): nat
    decreases a + b
  {
    if a == 0 && b == 0 then 0 else 2 * Xor(a / 2, b / 2) + Bit(a, b)
  }

  lemma {:induction false} XorStep(a: nat, b: nat)
    ensures Xor(a, b) % 2 == Bit(a, b) && Xor(a, b) / 2 == Xor(a / 2, b / 2)
  {
  }

  lemma SameHalves(a: nat, b: nat)
    requires a / 2 == b / 2 && a % 2 == b % 2
    ensures a == b
  {
  }

  lemma {:induction false} XorZero(a: nat)
    ensures Xor(a, 0) == a
  {
    if a > 0 { XorZero(a / 2); }
  }

  lemma {:induction false} XorSelf(a: nat)
    ensures Xor(a, a) == 0
  {
    if a > 0 { XorSelf(a / 2); }
  }

  lemma {:induction false} XorCommutes(a: nat, b: nat)
    ensures Xor(a, b) == Xor(b, a)
    decreases a + b
  {
    if a + b > 0 { XorCommutes(a / 2, b / 2); }
  }

  lemma {:induction false} XorAssociates(a: nat, b: nat, c: nat)
    ensures Xor(Xor(a, b), c) == Xor(a, Xor(b, c))
    decreases a + b + c
  {
    if a + b + c > 0 {
      var ab, bc := Xor(a, b), Xor(b, c);
      XorStep(a, b); XorStep(b, c); XorStep(ab, c); XorStep(a, bc);
      XorAssociates(a / 2, b / 2, c / 2);
      SameHalves(Xor(ab, c), Xor(a, bc));
    }
  }

  /** Exclusive or with the same word twice is the identity. */
  lemma XorCancel(a: nat, b: nat)
    ensures Xor(Xor(a, b), b) == a
  {
    XorAssociates(a, b, b); XorSelf(b); XorZero(a);
  }

  function Pow2(k: nat): (p: nat)
    ensures p > 0
  {
    if k == 0 then 1 else 2 * Pow2(k - 1)
  }

  lemma {:induction false} XorBound(a: nat, b: nat, k: nat)
    requires a < Pow2(k) && b < Pow2(k)
    ensures Xor(a, b) < Pow2(k)
  {
    if k > 0 && a + b > 0 { XorBound(a / 2, b / 2, k - 1); }
  }

  function Shift(a: nat, k: nat): nat {
    if k == 0 then a else Shift(a / 2, k - 1)
  }

  /** Shifting right distributes over exclusive or. */
  lemma {:induction false} XorShift(a: nat, b: nat, k: nat)
    ensures Shift(Xor(a, b), k) == Xor(Shift(a, k), Shift(b, k))
  {
    if k > 0 {
      XorStep(a, b);
      XorShift(a / 2, b / 2, k - 1);
    }
  }

  lemma {:induction false} ShiftShift(a: nat, j: nat, k: nat)
    ensures Shift(Shift(a, j), k) == Shift(a, j + k)
  {
    if j > 0 { ShiftShift(a / 2, j - 1, k); }
  }

  lemma {:induction false} ShiftOut(a: nat, k: nat)
    requires a < Pow2(k)
    ensures Shift(a, k) == 0
  {
    if k > 0 { ShiftOut(a / 2, k - 1); }
  }

  lemma {:induction false} ShiftBound(a: nat, k: nat)
    ensures Shift(a, k) <= a
  {
    if k > 0 { ShiftBound(a / 2, k - 1); }
  }
}
