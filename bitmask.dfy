/**
 * The packed location word of common/common.h: a 64-bit word whose low 56
 * bits are the set of storage targets holding a replica of a chunk and whose
 * top byte is the target chosen to hold the parity (the "P" owner).
 *
 * A uint64_t is modelled by its 64 bits, bit i at index i; the macros are
 * bitwise operations on them.
 */
module Bitmask {

  import opened Bytes

  const MaxStorageTargets: nat := 56

  /** n cleared bits. */
  function Zeros(n: nat): (s: seq<bool>)
    ensures |s| == n
    ensures forall i :: 0 <= i < n ==> !s[i]
  {
    if n == 0 then [] else [false] + Zeros(n - 1)
  }

  /** n set bits. */
  function Ones(n: nat): (s: seq<bool>)
    ensures |s| == n
    ensures forall i :: 0 <= i < n ==> s[i]
  {
    if n == 0 then [] else [true] + Ones(n - 1)
  }

  type Word = w: seq<bool> | |w| == 64 witness Zeros(64)

  /** The common.h FileInfo record (bitmask layout). */
  datatype FileInfo = FileInfo(maxChunkSize: u64, timestamp: u64, locations: Word)

  function Pow2(n: nat): (p: nat)
    ensures p >= 1
  {
    if n == 0 then 1 else 2 * Pow2(n - 1)
  }

  /** The n low bits of x, least significant first. */
  function ToBits(x: nat, n: nat): (b: seq<bool>)
    ensures |b| == n
  {
    if n == 0 then [] else [x % 2 == 1] + ToBits(x / 2, n - 1)
  }

  /** The number whose bits, least significant first, are b. */
  function FromBits(b: seq<bool>): (x: nat)
    ensures x < Pow2(|b|)
  {
    if |b| == 0 then 0 else (if b[0] then 1 else 0) + 2 * FromBits(b[1..])
  }

  /** Reading back the n low bits of x gives x modulo 2^n. */
  lemma {:induction false} FromToBits(x: nat, n: nat)
    ensures FromBits(ToBits(x, n)) == x % Pow2(n)
  {
    if n > 0 {
      var b := ToBits(x, n);
      assert b[1..] == ToBits(x / 2, n - 1);
      FromToBits(x / 2, n - 1);
      HalveModulus(x, Pow2(n - 1));
    }
  }

  /** Taking x modulo 2p is taking its low bit, then x/2 modulo p. */
  lemma HalveModulus(x: nat, p: nat)
    requires p >= 1
    ensures x % (2 * p) == x % 2 + 2 * ((x / 2) % p)
  {
    var q := (x / 2) / p;
    var r := (x / 2) % p;
    assert x / 2 == p * q + r;
    assert x == 2 * (x / 2) + x % 2;
    Distribute(p, q, r);
    ModUnique(x, 2 * p, q, 2 * r + x % 2);
  }

  lemma Distribute(p: int, q: int, r: int)
    ensures 2 * (p * q + r) == (2 * p) * q + 2 * r
  {
  }

  /** Bits read back as a number and written out again are unchanged. */
  lemma {:induction false} ToFromBits(b: seq<bool>)
    ensures ToBits(FromBits(b), |b|) == b
  {
    if |b| > 0 {
      var x := FromBits(b);
      assert x % 2 == (if b[0] then 1 else 0);
      assert x / 2 == FromBits(b[1..]);
      ToFromBits(b[1..]);
    }
  }

  lemma {:induction false} ToBitsPrefix(x: nat, n: nat, k: nat)
    requires k <= n
    ensures ToBits(x, n)[..k] == ToBits(x, k)
  {
    if k > 0 {
      ToBitsPrefix(x / 2, n - 1, k - 1);
    }
  }

  /** The word holding the u64 value x. */
  function ToWord(x: u64): Word
  {
    ToBits(x, 64)
  }

  /** TEST_BIT: is bit i of x set? A shift by 64 or more is undefined in C; it reads as "not set". */
  predicate TestBit(x: Word, i: nat)
  {
    i < 64 && x[i]
  }

  const PMask: Word := Zeros(56) + Ones(8)
  const LMask: Word := Ones(56) + Zeros(8)

  /** The owner byte that means "no parity owner chosen yet". */
  const NoP: nat := 255

  function And(a: Word, b: Word): Word
  {
    seq(64, i requires 0 <= i < 64 => a[i] && b[i])
  }

  function Or(a: Word, b: Word): Word
  {
    seq(64, i requires 0 <= i < 64 => a[i] || b[i])
  }

  function ShiftLeft(x: Word, k: nat): Word
  {
    seq(64, i requires 0 <= i < 64 => i >= k && x[i - k])
  }

  /** GET_P: (int)(loc >> 56), the value of the top byte. */
  function GetP(loc: Word): (p: nat)
    ensures p < 256
  {
    assert Pow2(8) == 256;
    FromBits(loc[56..])
  }

  /** WITH_P: keep the location bits and put the low eight bits of p in the owner byte. */
  function WithP(loc: Word, p: u64): (r: Word)
    ensures forall i :: 0 <= i < 56 ==> r[i] == loc[i]
    ensures r[56..] == ToBits(p, 8)
    ensures GetP(r) == p % 256
  {
    var r := Or(And(loc, LMask), And(ShiftLeft(ToWord(p), 56), PMask));
    ToBitsPrefix(p, 64, 8);
    assert r[56..] == ToBits(p, 8);
    FromToBits(p, 8);
    assert Pow2(8) == 256;
    r
  }

  /** Setting the owner twice keeps only the second. */
  lemma WithPOverwrites(loc: Word, p: u64, q: u64)
    ensures WithP(WithP(loc, p), q) == WithP(loc, q)
  {
    var a := WithP(WithP(loc, p), q);
    var b := WithP(loc, q);
    assert a == a[..56] + a[56..];
    assert b == b[..56] + b[56..];
  }

  /** The two masks are disjoint and cover the word. */
  lemma MasksPartition()
    ensures And(PMask, LMask) == Zeros(64)
    ensures Or(PMask, LMask) == Ones(64)
  {
  }

  /** Every word is exactly its location part with its owner byte put back. */
  lemma SplitIsUnique(x: Word)
    ensures WithP(And(x, LMask), GetP(x)) == x
  {
    var r := WithP(And(x, LMask), GetP(x));
    ToFromBits(x[56..]);
    assert r[56..] == x[56..];
    assert r[..56] == x[..56];
    assert r == r[..56] + r[56..];
    assert x == x[..56] + x[56..];
  }

  /** Every owner that fits the top byte, NO_P included, reads back unchanged. */
  lemma OwnerRoundTrip(loc: Word, p: u64)
    requires p < 256
    ensures GetP(WithP(loc, p)) == p
  {
    assert p % 256 == p;
  }

  /** WITH_P leaves every location bit as it was. */
  lemma TestBitWithP(loc: Word, p: u64, i: nat)
    requires i < MaxStorageTargets
    ensures TestBit(WithP(loc, p), i) <==> TestBit(loc, i)
  {
  }

  /** The number of set bits of x below index n. */
  function PopCount(x: Word, n: nat): (c: nat)
    requires n <= 64
    ensures c <= n
  {
    if n == 0 then 0 else PopCount(x, n - 1) + (if x[n - 1] then 1 else 0)
  }

  /** The set bits of x below index n, as a set of targets. */
  ghost function BitSet(x: Word, n: nat): set<nat>
    requires n <= 64
  {
    set i: nat | i < n && x[i]
  }

  /** PopCount counts exactly the members of BitSet. */
  lemma {:induction false} PopCountIsCardinality(x: Word, n: nat)
    requires n <= 64
    ensures PopCount(x, n) == |BitSet(x, n)|
  {
    if n > 0 {
      PopCountIsCardinality(x, n - 1);
      if x[n - 1] {
        assert BitSet(x, n) == BitSet(x, n - 1) + {n - 1};
      } else {
        assert BitSet(x, n) == BitSet(x, n - 1);
      }
    }
  }

  /** MAX of common.h: at least both arguments, and one of them. */
  function Max(a: int, b: int): (m: int)
    ensures m >= a && m >= b
    ensures m == a || m == b
  {
    if a > b then a else b
  }

  /** MIN of common.h: at most both arguments, and one of them. */
  function Min(a: int, b: int): (m: int)
    ensures m <= a && m <= b
    ensures m == a || m == b
  {
    if a < b then a else b
  }
}
