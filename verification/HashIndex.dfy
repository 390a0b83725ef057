/**
 The hash of the index on `id` (src/index.c), a permutation of the 32-bit words, and the mask
 that picks a bucket from it. The buckets themselves are in ChainedIndex.
 */
module HashIndex {
  import opened Bytes

  // ----- hashing -----

  function Mix(v: nat, k: nat): nat {
    Xor(v, Shift(v, k))
  }

  /** The three kinds of step of `index_hash`, each on 32-bit words. */
  function Fold16(v: uint32): uint32 {
    MixIsWord(v, 16);
    Mix(v, 16)
  }

  function Fold15(v: uint32): uint32 {
    MixIsWord(v, 15);
    Mix(v, 15)
  }

  function Times(v: uint32, m: nat): uint32 {
    (v * m) % U32
  }

  function Hash(key: int32): uint32 {
    Fold16(Times(Fold15(Times(Fold16(ToU32(key)), M1)), M2))
  }

  lemma MixIsWord(v: uint32, k: nat)
    ensures Mix(v, k) < U32
  {
    WordPower();
    ShiftBound(v, k);
    XorBound(v, Shift(v, k), 32);
  }

  lemma WordPower()
    ensures Pow2(32) == U32
  {
    assert Pow2(8) == 256;
    assert Pow2(16) == 256 * Pow2(8);
    assert Pow2(24) == 256 * Pow2(16);
  }

  /** Shifting by at least half the word and combining undoes itself. */
  lemma MixTwice(v: uint32, k: nat)
    requires 16 <= k
    ensures Mix(Mix(v, k), k) == v
  {
    var s := Shift(v, k);
    XorShift(v, s, k);
    ShiftShift(v, k, k);
    ShiftOutWord(v, 2 * k);
    XorZero(s);
    XorCancel(v, s);
  }

  lemma ShiftOutWord(v: uint32, k: nat)
    requires 32 <= k
    ensures Shift(v, k) == 0
  {
    WordPower();
    ShiftShift(v, 32, k - 32);
    ShiftOut(v, 32);
    ShiftZero(k - 32);
  }

  lemma {:induction false} ShiftZero(k: nat)
    ensures Shift(0, k) == 0
  {
    if k > 0 { ShiftZero(k - 1); }
  }

  /** Undoes Mix(_, 15): the remaining overlap is two bits wide. */
  function Unmix15(v: nat): nat {
    Xor(Mix(v, 15), Shift(v, 30))
  }

  lemma UnmixMix15(v: uint32)
    ensures Unmix15(Mix(v, 15)) == v
  {
    var s, t := Shift(v, 15), Shift(v, 30);
    XorShift(v, s, 15); ShiftShift(v, 15, 15);
    XorShift(v, s, 30); ShiftShift(v, 15, 30); ShiftOutWord(v, 45); XorZero(t);
    // Mix(Mix(v, 15), 15) is (v ^ s) ^ (s ^ t), that is v ^ t.
    XorAssociates(Xor(v, s), s, t); XorCancel(v, s);
    XorCancel(v, t);
  }

  lemma MixUnmix15(v: uint32)
    ensures Mix(Unmix15(v), 15) == v
  {
    var s, t := Shift(v, 15), Shift(v, 30);
    var u := Unmix15(v);
    XorShift(Mix(v, 15), t, 15); XorShift(v, s, 15);
    ShiftShift(v, 15, 15); ShiftShift(v, 30, 15); ShiftOutWord(v, 45);
    XorZero(Xor(s, t));
    // u is (v ^ s) ^ t and its shift is s ^ t.
    XorAssociates(v, s, t);
    XorCancel(v, Xor(s, t));
  }

  const M1: nat := 0x7FEB352D
  const M2: nat := 0x846CA68B
  const M1_INVERSE: nat := 0x1D69E2A5
  const M2_INVERSE: nat := 0x43021123

  /** Multiplying modulo 2^32 by m and then by its inverse changes nothing. */
  lemma TimesInverse(x: uint32, m: nat, inverse: nat, k: nat)
    requires m * inverse == k * U32 + 1
    ensures ((x * m) % U32 * inverse) % U32 == x
  {
    var q, r := (x * m) / U32, (x * m) % U32;
    assert r * inverse == (x * m) * inverse - (q * U32) * inverse by { assert r == x * m - q * U32; }
    assert (x * m) * inverse == x * (m * inverse) == x * (k * U32) + x;
    assert x * (k * U32) == (x * k) * U32;
    assert (q * U32) * inverse == (q * inverse) * U32;
    WholeWords(x, x * k - q * inverse);
  }

  lemma WholeWords(x: uint32, n: int)
    ensures (x + n * U32) % U32 == x
  {
  }

  lemma TimesM1(x: uint32)
    ensures ((x * M1) % U32 * M1_INVERSE) % U32 == x
    ensures ((x * M1_INVERSE) % U32 * M1) % U32 == x
  {
    TimesInverse(x, M1, M1_INVERSE, 246582719);
    TimesInverse(x, M1_INVERSE, M1, 246582719);
  }

  lemma TimesM2(x: uint32)
    ensures ((x * M2) % U32 * M2_INVERSE) % U32 == x
    ensures ((x * M2_INVERSE) % U32 * M2) % U32 == x
  {
    TimesInverse(x, M2, M2_INVERSE, 581534029);
    TimesInverse(x, M2_INVERSE, M2, 581534029);
  }

  function Unfold15(v: uint32): uint32 {
    UnmixIsWord(v);
    Unmix15(v)
  }

  /** The explicit inverse of the mixer. */
  function Unhash(h: uint32): int32 {
    FromU32(Fold16(Times(Unfold15(Times(Fold16(h), M2_INVERSE)), M1_INVERSE)))
  }

  /** `index_hash` is a permutation of the 32-bit values, so equal hashes mean equal keys. */
  lemma UnhashHash(key: int32)
    ensures Unhash(Hash(key)) == key
  {
    hide Mix, Unmix15;
    var v := ToU32(key);
    var a := Fold16(v); MixTwice(v, 16);
    var a' := Times(a, M1); TimesM1(a);
    var b := Fold15(a'); UnmixMix15(a');
    var b' := Times(b, M2); TimesM2(b);
    MixTwice(b', 16);
    hide Fold16, Fold15, Unfold15, Times;
  }

  lemma HashUnhash(h: uint32)
    ensures Hash(Unhash(h)) == h
  {
    hide Mix, Unmix15;
    var c := Fold16(h); MixTwice(h, 16);
    var b := Times(c, M2_INVERSE); TimesM2(c);
    var u := Unfold15(b); MixUnmix15(b);
    var a := Times(u, M1_INVERSE); TimesM1(u);
    MixTwice(a, 16);
    assert ToU32(FromU32(Fold16(a))) == Fold16(a);
    hide Fold16, Fold15, Unfold15, Times;
  }

  lemma UnmixIsWord(v: uint32)
    ensures Unmix15(v) < U32
  {
    WordPower();
    MixIsWord(v, 15);
    ShiftBound(v, 30);
    XorBound(Mix(v, 15), Shift(v, 30), 32);
  }

  // ----- masking -----

  function And(a: nat, b: nat): nat {
    if a == 0 || b == 0 then 0 else 2 * And(a / 2, b / 2) + (if a % 2 == 1 && b % 2 == 1 then 1 else 0)
  }

  predicate IsPow2(n: nat) {
    n == 1 || (n > 1 && n % 2 == 0 && IsPow2(n / 2))
  }

  /** Masking with a power of two less one is the remainder. */
  lemma {:induction false} MaskIsRemainder(h: nat, n: nat)
    requires IsPow2(n)
    ensures And(h, n - 1) == h % n < n
  {
    if n == 1 {
    } else {
      var m := n / 2;
      assert n == 2 * m && m > 0;
      MaskIsRemainder(h / 2, m);
      assert (n - 1) / 2 == m - 1 && (n - 1) % 2 == 1;
      AndStep(h, n - 1);
      HalveRemainder(h, m);
    }
  }

  lemma AndStep(a: nat, b: nat)
    requires b % 2 == 1
    ensures And(a, b) == 2 * And(a / 2, b / 2) + a % 2
  {
  }

  lemma HalveRemainder(h: nat, m: nat)
    requires m > 0
    ensures h % (2 * m) == 2 * ((h / 2) % m) + h % 2
  {
    var q, r := (h / 2) / m, (h / 2) % m;
    assert h / 2 == q * m + r;
    assert h == q * (2 * m) + (2 * r + h % 2);
    RemainderUnique(h, 2 * m, q, 2 * r + h % 2);
  }

  lemma RemainderUnique(x: nat, d: nat, q: nat, r: nat)
    requires d > 0 && x == q * d + r && r < d
    ensures x % d == r
  {
    var q', r' := x / d, x % d;
    assert x == q' * d + r';
    assert (q - q') * d == r' - r;
    if q > q' { MulMono(d, 1, q - q'); }
    if q < q' { MulMono(d, 1, q' - q); }
  }

  function Bucket(key: int32, bucketCount: nat): (b: nat)
    requires IsPow2(bucketCount)
    ensures b < bucketCount
  {
    MaskIsRemainder(Hash(key), bucketCount);
    And(Hash(key), bucketCount - 1)
  }

  /** Distinct keys share a bucket only because of the mask. */
  lemma CollisionsComeFromMasking(a: int32, b: int32, n: nat)
    requires IsPow2(n) && a != b
    ensures Bucket(a, n) == Bucket(b, n) <==> Hash(a) % n == Hash(b) % n
    ensures Hash(a) != Hash(b)
  {
    MaskIsRemainder(Hash(a), n); MaskIsRemainder(Hash(b), n);
    UnhashHash(a); UnhashHash(b);
  }
}
