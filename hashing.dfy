/**
 * simple_hash of bp-parity-gen/main.c: a djb2-style hash over the bytes of a
 * path, in 32-bit unsigned arithmetic. The C `char` is signed, so a byte of
 * 0x80 or above is added as a negative number (and the sum wraps).
 */
module Hashing {

  import Bytes

  const Two32: int := 0x1_0000_0000

  type u32 = x: int | 0 <= x < Two32

  const HashSeed: u32 := 5381

  /** The value a byte has as a signed C `char`. */
  function SignedChar(c: Bytes.byte): (v: int)
    ensures -128 <= v < 128
    ensures v % 256 == c as int
  {
    if c < 0x80 then c as int else c as int - 256
  }

  /** One round: h + (h << 5) + p[i], all modulo 2^32. */
  function Mix(h: u32, c: Bytes.byte): u32
  {
    (h + (h * 32) % Two32 + SignedChar(c)) % Two32
  }

  /** The hash of a byte string, as a fold over its bytes from the left. */
  function HashOf(p: seq<Bytes.byte>): u32
    decreases |p|
  {
    if |p| == 0 then HashSeed else Mix(HashOf(p[..|p| - 1]), p[|p| - 1])
  }

  /** The round is the multiplication by 33 of the djb2 family. */
  lemma MixIsTimes33(h: u32, c: Bytes.byte)
    ensures Mix(h, c) == (33 * h + SignedChar(c)) % Two32
  {
    var q := (h * 32) / Two32;
    assert h * 32 == q * Two32 + (h * 32) % Two32;
    assert 33 * h + SignedChar(c) == (h + (h * 32) % Two32 + SignedChar(c)) + q * Two32;
    ModShift(h + (h * 32) % Two32 + SignedChar(c), q);
  }

  lemma ModShift(x: int, q: int)
    ensures (x + q * Two32) % Two32 == x % Two32
  {
  }

  /** Hashing a concatenation continues from the hash of the first part. */
  function HashFrom(h: u32, p: seq<Bytes.byte>): u32
    decreases |p|
  {
    if |p| == 0 then h else Mix(HashFrom(h, p[..|p| - 1]), p[|p| - 1])
  }

  lemma {:induction false} HashConcat(a: seq<Bytes.byte>, b: seq<Bytes.byte>)
    ensures HashOf(a + b) == HashFrom(HashOf(a), b)
    decreases |b|
  {
    if |b| == 0 {
      assert a + b == a;
    } else {
      var b' := b[..|b| - 1];
      assert (a + b)[..|a + b| - 1] == a + b';
      HashConcat(a, b');
    }
  }

  /** The loop of simple_hash, proved to compute HashOf. */
  method SimpleHash(p: seq<Bytes.byte>) returns (h: u32)
    ensures h == HashOf(p)
    ensures |p| == 0 ==> h == 5381
  {
    h := HashSeed;
    var i := 0;
    while i < |p|
      invariant 0 <= i <= |p|
      invariant h == HashOf(p[..i])
    {
      assert p[..i + 1][..i] == p[..i];
      h := (h + (h * 32) % Two32 + SignedChar(p[i])) % Two32;
      i := i + 1;
    }
    assert p[..i] == p;
  }

  /** The four bytes of an unsigned, in the order they sit in memory. */
  function BytesOfU32(h: u32): (b: seq<Bytes.byte>)
    ensures |b| == 4
    ensures Bytes.FromLittleEndian(b) == h
  {
    Bytes.Pow256Of4();
    Bytes.DecodeEncode(h, 4);
    Bytes.LittleEndian(h, 4)
  }
}
