/**
 * Bytes and fixed-width unsigned integers as they sit in memory on the
 * (little-endian) machines the program runs on.
 */
module Bytes {

  /** An unsigned char. */
  newtype byte = x: int | 0 <= x < 256

  const Two64: int := 0x1_0000_0000_0000_0000

  type u64 = x: int | 0 <= x < Two64

  function Pow256(n: nat): (p: nat)
    ensures p >= 1
  {
    if n == 0 then 1 else 256 * Pow256(n - 1)
  }

  lemma Pow256Of8()
    ensures Pow256(8) == Two64
  {
  }

  lemma Pow256Of4()
    ensures Pow256(4) == 0x1_0000_0000
  {
  }

  /** The n low bytes of x, least significant first. */
  function LittleEndian(x: nat, n: nat): (b: seq<byte>)
    ensures |b| == n
  {
    if n == 0 then [] else [(x % 256) as byte] + LittleEndian(x / 256, n - 1)
  }

  /** The number whose little-endian bytes are b. */
  function FromLittleEndian(b: seq<byte>): (x: nat)
    ensures x < Pow256(|b|)
  {
    if |b| == 0 then 0 else b[0] as nat + 256 * FromLittleEndian(b[1..])
  }

  lemma {:induction false} DecodeEncode(x: nat, n: nat)
    requires x < Pow256(n)
    ensures FromLittleEndian(LittleEndian(x, n)) == x
  {
    if n > 0 {
      var b := LittleEndian(x, n);
      assert b[1..] == LittleEndian(x / 256, n - 1);
      assert b[0] as nat == x % 256;
      assert x / 256 < Pow256(n - 1);
      DecodeEncode(x / 256, n - 1);
      assert FromLittleEndian(b) == x % 256 + 256 * (x / 256);
    }
  }

  lemma {:induction false} MulAtLeast(d: int, k: int)
    requires d > 0 && k >= 1
    ensures d * k >= d
  {
    if k > 1 {
      MulAtLeast(d, k - 1);
      assert d * k == d * (k - 1) + d;
    }
  }

  /** Euclidean division has one quotient and one remainder. */
  lemma ModUnique(x: int, d: int, q: int, r: int)
    requires d > 0 && 0 <= r < d && x == d * q + r
    ensures x % d == r && x / d == q
  {
    var q' := x / d;
    var r' := x % d;
    assert x == d * q' + r';
    assert d * q - d * q' == r' - r;
    assert d * (q - q') == r' - r;
    if q > q' {
      MulAtLeast(d, q - q');
      assert false;
    } else if q < q' {
      MulAtLeast(d, q' - q);
      assert false;
    }
  }

  lemma {:induction false} EncodeDecode(b: seq<byte>)
    ensures LittleEndian(FromLittleEndian(b), |b|) == b
  {
    if |b| > 0 {
      var x := FromLittleEndian(b);
      assert x % 256 == b[0] as nat;
      assert x / 256 == FromLittleEndian(b[1..]);
      EncodeDecode(b[1..]);
    }
  }

  /** A u64 survives the round trip through its 8 bytes. */
  lemma U64RoundTrip(x: u64)
    ensures FromLittleEndian(LittleEndian(x, 8)) == x
  {
    Pow256Of8();
    DecodeEncode(x, 8);
  }

  /** The u64 stored at offset off of a buffer. */
  function U64At(buf: seq<byte>, off: nat): (x: u64)
    requires off + 8 <= |buf|
  {
    Pow256Of8();
    FromLittleEndian(buf[off..off + 8])
  }
}
