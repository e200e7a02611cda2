/**
 * The packed_file_info record of bp-parity-gen/main.c as it travels from a
 * scanner to a collector: an 8-byte byte_size, an 8-byte timestamp, an
 * 8-byte path_len, then path_len path bytes, with no padding. Many records
 * are batched back to back in one message.
 */
module Wire {

  import opened Bytes

  const HeaderSize: nat := 24

  datatype Packed = Packed(byteSize: u64, timestamp: u64, path: seq<byte>)

  predicate Encodable(r: Packed)
  {
    |r.path| < Two64
  }

  predicate AllEncodable(rs: seq<Packed>)
  {
    forall k :: 0 <= k < |rs| ==> Encodable(rs[k])
  }

  /** The bytes push_to_target copies into a destination buffer for one record. */
  function Encode(r: Packed): (e: seq<byte>)
    requires Encodable(r)
    ensures |e| == HeaderSize + |r.path|
    ensures e[HeaderSize..] == r.path
  {
    LittleEndian(r.byteSize, 8) + LittleEndian(r.timestamp, 8) + LittleEndian(|r.path|, 8) + r.path
  }

  /** The header of an encoded record reads back as byte_size, timestamp, path_len. */
  lemma EncodeHeader(r: Packed)
    requires Encodable(r)
    ensures var e := Encode(r);
      U64At(e, 0) == r.byteSize && U64At(e, 8) == r.timestamp && U64At(e, 16) == |r.path|
  {
    var e := Encode(r);
    assert e[0..8] == LittleEndian(r.byteSize, 8);
    assert e[8..16] == LittleEndian(r.timestamp, 8);
    assert e[16..24] == LittleEndian(|r.path|, 8);
    U64RoundTrip(r.byteSize);
    U64RoundTrip(r.timestamp);
    U64RoundTrip(|r.path|);
  }

  /** The record whose header starts a buffer (the collector's cast to packed_file_info). */
  function RecordAt(b: seq<byte>): Packed
    requires |b| >= HeaderSize && HeaderSize + U64At(b, 16) <= |b|
  {
    Packed(U64At(b, 0), U64At(b, 8), b[HeaderSize..HeaderSize + U64At(b, 16)])
  }

  /** A buffer made of whole records: every header is complete and its path fits. */
  predicate Framed(b: seq<byte>)
    decreases |b|
  {
    |b| == 0 ||
    (|b| >= HeaderSize && HeaderSize + U64At(b, 16) <= |b| &&
     Framed(b[HeaderSize + U64At(b, 16)..]))
  }

  /** The records of a framed buffer, in order. */
  function DecodeAll(b: seq<byte>): seq<Packed>
    requires Framed(b)
    decreases |b|
  {
    if |b| == 0 then []
    else [RecordAt(b)] + DecodeAll(b[HeaderSize + U64At(b, 16)..])
  }

  /** The encodings of several records, concatenated in order. */
  function EncodeAll(rs: seq<Packed>): (e: seq<byte>)
    requires AllEncodable(rs)
  {
    if |rs| == 0 then [] else Encode(rs[0]) + EncodeAll(rs[1..])
  }

  lemma {:induction false} EncodeAllAppend(rs: seq<Packed>, r: Packed)
    requires AllEncodable(rs) && Encodable(r)
    ensures AllEncodable(rs + [r])
    ensures EncodeAll(rs + [r]) == EncodeAll(rs) + Encode(r)
  {
    if |rs| > 0 {
      assert (rs + [r])[1..] == rs[1..] + [r];
      EncodeAllAppend(rs[1..], r);
    }
  }

  /** Decoding one encoded record in front of anything gives it back, and the rest. */
  lemma DecodeFront(r: Packed, rest: seq<byte>)
    requires Encodable(r)
    ensures var b := Encode(r) + rest;
      |b| >= HeaderSize && U64At(b, 16) == |r.path| && HeaderSize + |r.path| <= |b| &&
      RecordAt(b) == r && b[HeaderSize + |r.path|..] == rest
  {
    var e := Encode(r);
    var b := e + rest;
    EncodeHeader(r);
    assert b[16..24] == e[16..24];
    assert b[0..8] == e[0..8];
    assert b[8..16] == e[8..16];
    assert b[HeaderSize..HeaderSize + |r.path|] == e[HeaderSize..];
  }

  /** The collector decodes exactly what the scanners encoded. */
  lemma {:induction false} DecodeEncodeAll(rs: seq<Packed>)
    requires AllEncodable(rs)
    ensures Framed(EncodeAll(rs))
    ensures DecodeAll(EncodeAll(rs)) == rs
  {
    if |rs| > 0 {
      DecodeFront(rs[0], EncodeAll(rs[1..]));
      DecodeEncodeAll(rs[1..]);
    }
  }
}
