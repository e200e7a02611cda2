/**
 * Placement of bp-parity-gen/main.c: counting the targets in use
 * (sts_in_use), merging a gathered record with a persisted one
 * (fill_in_missing_fields) and choosing a parity owner outside the location
 * set by re-hashing (select_P).
 */
module Placement {

  import opened Bytes
  import opened Bitmask
  import Hashing

  /** sts_in_use: the number of location bits set; the owner byte is masked off. */
  function StsInUse(loc: Word): (c: nat)
    ensures c <= MaxStorageTargets
    ensures c == |BitSet(loc, MaxStorageTargets)|
    ensures c == PopCount(loc, MaxStorageTargets)
  {
    var x := And(loc, LMask);
    PopCountMasked(x, 64);
    PopCountSame(x, loc, 56);
    PopCountIsCardinality(loc, 56);
    PopCount(x, 64)
  }

  /** Masking off the owner byte leaves exactly the count of the location bits. */
  lemma {:induction false} PopCountMasked(x: Word, n: nat)
    requires n <= 64
    requires forall i :: 56 <= i < 64 ==> !x[i]
    ensures PopCount(x, n) == PopCount(x, if n < 56 then n else 56)
  {
    if n > 56 {
      PopCountMasked(x, n - 1);
    }
  }

  lemma {:induction false} PopCountSame(x: Word, y: Word, n: nat)
    requires n <= 64
    requires forall i :: 0 <= i < n ==> x[i] == y[i]
    ensures PopCount(x, n) == PopCount(y, n)
  {
    if n > 0 {
      PopCountSame(x, y, n - 1);
    }
  }

  /** A word whose owner byte is all zero bits has owner 0. */
  lemma {:induction false} FromBitsZeros(b: seq<bool>)
    requires forall i :: 0 <= i < |b| ==> !b[i]
    ensures FromBits(b) == 0
  {
    if |b| > 0 {
      FromBitsZeros(b[1..]);
    }
  }

  /**
   * fill_in_missing_fields(dst, src): keep the larger size and dst's
   * timestamp, take the union of the location bits, and take src's owner
   * only when that owner's bit is not in the union; otherwise the masking
   * has left the owner byte at 0.
   */
  function FillInMissingFields(dst: FileInfo, src: FileInfo): (r: FileInfo)
    ensures r.maxChunkSize >= dst.maxChunkSize && r.maxChunkSize >= src.maxChunkSize
    ensures r.maxChunkSize == dst.maxChunkSize || r.maxChunkSize == src.maxChunkSize
    ensures r.timestamp == dst.timestamp
    ensures forall i :: 0 <= i < MaxStorageTargets ==>
      r.locations[i] == (dst.locations[i] || src.locations[i])
    ensures var p := GetP(src.locations);
      GetP(r.locations) == if p < MaxStorageTargets && (dst.locations[p] || src.locations[p]) then 0 else p
  {
    var size := Max(dst.maxChunkSize, src.maxChunkSize);
    var oldP := GetP(src.locations);
    var locs := MergedLocations(dst.locations, src.locations);
    ByteMod(oldP);
    FileInfo(size, dst.timestamp, if !TestBit(locs, oldP) then WithP(locs, oldP) else locs)
  }

  lemma ByteMod(p: nat)
    requires p < 256
    ensures p % 256 == p
  {
  }

  /** (dst | src) & L_MASK: the union of the location bits with a zero owner byte. */
  function MergedLocations(a: Word, b: Word): (w: Word)
    ensures forall i :: 0 <= i < MaxStorageTargets ==> w[i] == (a[i] || b[i])
    ensures forall i :: MaxStorageTargets <= i < 64 ==> !w[i]
    ensures GetP(w) == 0
  {
    var w := And(Or(a, b), LMask);
    FromBitsZeros(w[56..]);
    w
  }

  /** After a merge a target holds a replica iff it held one in either record. */
  lemma FillInUnion(dst: FileInfo, src: FileInfo, i: nat)
    requires i < MaxStorageTargets
    ensures TestBit(FillInMissingFields(dst, src).locations, i) <==>
            TestBit(dst.locations, i) || TestBit(src.locations, i)
  {
  }

  /** Merging in either order gives the same locations and the same size. */
  lemma FillInSymmetric(a: FileInfo, b: FileInfo, i: nat)
    requires i < MaxStorageTargets
    ensures TestBit(FillInMissingFields(a, b).locations, i) == TestBit(FillInMissingFields(b, a).locations, i)
    ensures FillInMissingFields(a, b).maxChunkSize == FillInMissingFields(b, a).maxChunkSize
  {
  }

  /** A record whose owner is not among its own locations is a fixed point of merging with itself. */
  lemma FillInIdempotent(a: FileInfo)
    requires !TestBit(a.locations, GetP(a.locations))
    ensures FillInMissingFields(a, a) == a
  {
    var r := FillInMissingFields(a, a);
    assert r.locations[..56] == a.locations[..56];
    ToFromBits(a.locations[56..]);
    assert r.locations[56..] == ToBits(GetP(a.locations), 8);
    assert r.locations == r.locations[..56] + r.locations[56..];
    assert a.locations == a.locations[..56] + a.locations[56..];
  }

  /** A persisted owner survives a merge when no replica sits on it. */
  lemma FillInKeepsPersistedOwner(gathered: FileInfo, persisted: FileInfo)
    requires !TestBit(gathered.locations, GetP(persisted.locations))
    requires !TestBit(persisted.locations, GetP(persisted.locations))
    ensures GetP(FillInMissingFields(gathered, persisted).locations) == GetP(persisted.locations)
  {
  }

  /**
   * When the persisted owner now holds a replica, the merge leaves owner 0
   * rather than NO_P, so no new owner is chosen; if target 0 holds a
   * replica too, the owner is one of the record's own locations.
   */
  lemma MergedOwnerCollides(gathered: FileInfo, persisted: FileInfo)
    requires GetP(persisted.locations) < MaxStorageTargets
    requires TestBit(gathered.locations, GetP(persisted.locations)) && TestBit(gathered.locations, 0)
    ensures var r := FillInMissingFields(gathered, persisted);
      GetP(r.locations) == 0 && GetP(r.locations) != NoP && TestBit(r.locations, GetP(r.locations))
  {
  }

  /**
   * The merge as its own comment describes it: the persisted owner is kept
   * only when no replica sits on it, and is otherwise reset to NO_P so that
   * a new owner is chosen.
   */
  function FillInMissingFieldsCorrected(dst: FileInfo, src: FileInfo): (r: FileInfo)
    ensures r.maxChunkSize == Max(dst.maxChunkSize, src.maxChunkSize) && r.timestamp == dst.timestamp
    ensures forall i :: 0 <= i < MaxStorageTargets ==>
      r.locations[i] == (dst.locations[i] || src.locations[i])
    ensures GetP(r.locations) < MaxStorageTargets ==> !TestBit(r.locations, GetP(r.locations))
    ensures var p := GetP(src.locations);
      GetP(r.locations) == if p < MaxStorageTargets && (dst.locations[p] || src.locations[p]) then NoP else p
  {
    var m := FillInMissingFields(dst, src);
    var p := GetP(src.locations);
    if p < MaxStorageTargets && TestBit(m.locations, p) then
      var w := WithP(m.locations, NoP);
      OwnerRoundTrip(m.locations, NoP);
      FileInfo(m.maxChunkSize, m.timestamp, w)
    else
      assert GetP(m.locations) == p;
      m
  }

  /** The `^` of two 32-bit unsigned values. */
  function Xor32(a: Hashing.u32, b: Hashing.u32): (x: Hashing.u32)
  {
    Pow2Of32();
    Xor(a, b, 32)
  }

  /** The XOR of the n low bits of a and b, built from the least significant bit up. */
  function Xor(a: nat, b: nat, n: nat): (x: nat)
    ensures x < Pow2(n)
  {
    if n == 0 then 0 else (if a % 2 != b % 2 then 1 else 0) + 2 * Xor(a / 2, b / 2, n - 1)
  }

  lemma Pow2Of32()
    ensures Pow2(32) == Hashing.Two32
  {
    assert Pow2(8) == 256;
    Pow2Add(8, 8);
    assert Pow2(16) == 0x1_0000;
    Pow2Add(16, 16);
  }

  lemma {:induction false} Pow2Add(a: nat, b: nat)
    ensures Pow2(a + b) == Pow2(a) * Pow2(b)
  {
    if a > 0 {
      Pow2Add(a - 1, b);
      assert Pow2(a + b) == 2 * Pow2(a - 1 + b);
    }
  }

  /** The value of H after k rounds of `H = H ^ simple_hash(&H, 4)`. */
  function HashChain(h0: Hashing.u32, k: nat): Hashing.u32
  {
    if k == 0 then h0
    else
      var h := HashChain(h0, k - 1);
      Xor32(h, Hashing.HashOf(Hashing.BytesOfU32(h)))
  }

  lemma ChainStep(h0: Hashing.u32, k: nat)
    ensures var h := HashChain(h0, k);
      HashChain(h0, k + 1) == Xor32(h, Hashing.HashOf(Hashing.BytesOfU32(h)))
  {
  }

  /** The target tried in round k, counting from 0. */
  function Candidate(path: seq<byte>, k: nat, ntargets: nat): (p: nat)
    requires ntargets > 0
    ensures p < ntargets
  {
    HashChain(Hashing.HashOf(path), k + 1) % ntargets
  }

  /** Every one of the first k candidates holds a replica (or is an owner-byte bit). */
  predicate AllTaken(path: seq<byte>, loc: Word, ntargets: nat, k: int)
    requires ntargets > 0
  {
    forall j :: 0 <= j < k ==> TestBit(loc, Candidate(path, j, ntargets))
  }

  lemma TakenStep(path: seq<byte>, loc: Word, ntargets: nat, k: nat)
    requires ntargets > 0
    requires AllTaken(path, loc, ntargets, k) && TestBit(loc, Candidate(path, k, ntargets))
    ensures AllTaken(path, loc, ntargets, k + 1)
  {
  }

  /** The first round, from `from` on and below `fuel`, whose candidate is free; `fuel` when there is none. */
  function FirstFree(path: seq<byte>, loc: Word, ntargets: nat, from: nat, fuel: nat): (k: nat)
    requires ntargets > 0 && from <= fuel
    ensures from <= k <= fuel
    ensures k < fuel ==> !TestBit(loc, Candidate(path, k, ntargets))
    decreases fuel - from
  {
    if from == fuel then fuel
    else if !TestBit(loc, Candidate(path, from, ntargets)) then from
    else FirstFree(path, loc, ntargets, from + 1, fuel)
  }

  /** The first free round is the one after a run of taken candidates. */
  lemma {:induction false} FirstFreeAt(path: seq<byte>, loc: Word, ntargets: nat, from: nat, fuel: nat, k: nat)
    requires ntargets > 0 && from <= k <= fuel
    requires forall j :: from <= j < k ==> TestBit(loc, Candidate(path, j, ntargets))
    requires k < fuel ==> !TestBit(loc, Candidate(path, k, ntargets))
    ensures FirstFree(path, loc, ntargets, from, fuel) == k
    decreases fuel - from
  {
    if from < k {
      FirstFreeAt(path, loc, ntargets, from + 1, fuel, k);
    }
  }

  /**
   * The record select_P leaves after at most `fuel` rounds: unchanged when
   * every target is in use or no free candidate came up, otherwise owned by
   * the first free candidate.
   */
  function Placed(fi: FileInfo, path: seq<byte>, ntargets: nat, fuel: nat): FileInfo
    requires 0 < ntargets < Hashing.Two32
  {
    if StsInUse(fi.locations) == ntargets then fi
    else
      var k := FirstFree(path, fi.locations, ntargets, 0, fuel);
      if k < fuel then fi.(locations := WithP(fi.locations, Candidate(path, k, ntargets))) else fi
  }

  /** A placed record is the one given, or owned by a free target below ntargets with its locations kept. */
  lemma PlacedOwner(fi: FileInfo, path: seq<byte>, ntargets: nat, fuel: nat)
    requires 0 < ntargets <= MaxStorageTargets
    ensures var r := Placed(fi, path, ntargets, fuel);
      r == fi ||
      (r.maxChunkSize == fi.maxChunkSize && r.timestamp == fi.timestamp &&
       GetP(r.locations) < ntargets && !TestBit(fi.locations, GetP(r.locations)) &&
       forall i :: 0 <= i < MaxStorageTargets ==> (TestBit(r.locations, i) <==> TestBit(fi.locations, i)))
  {
    if StsInUse(fi.locations) != ntargets {
      var k := FirstFree(path, fi.locations, ntargets, 0, fuel);
      if k < fuel {
        OwnerIsFree(fi, Candidate(path, k, ntargets), ntargets);
      }
    }
  }

  /**
   * select_P: return at once when every target is in use; otherwise re-hash
   * until a target whose bit is clear comes up and make it the owner. The
   * source's loop has no bound; here it runs at most `fuel` rounds and
   * `exited` says whether it left the loop.
   */
  method SelectP(path: seq<byte>, fi: FileInfo, ntargets: nat, fuel: nat)
      returns (r: FileInfo, exited: bool, rounds: nat)
    requires 0 < ntargets < Hashing.Two32
    ensures StsInUse(fi.locations) == ntargets ==> r == fi && exited && rounds == 0
    ensures StsInUse(fi.locations) != ntargets && exited ==>
      0 < rounds <= fuel &&
      AllTaken(path, fi.locations, ntargets, rounds - 1) &&
      !TestBit(fi.locations, Candidate(path, rounds - 1, ntargets)) &&
      r == fi.(locations := WithP(fi.locations, Candidate(path, rounds - 1, ntargets)))
    ensures !exited ==>
      rounds == fuel && r == fi && AllTaken(path, fi.locations, ntargets, fuel)
    ensures r == Placed(fi, path, ntargets, fuel)
  {
    if StsInUse(fi.locations) == ntargets {
      return fi, true, 0;
    }
    var p;
    exited, p, rounds := Rehash(path, fi.locations, ntargets, fuel);
    r := if exited then fi.(locations := WithP(fi.locations, p)) else fi;
    FirstFreeAt(path, fi.locations, ntargets, 0, fuel, if exited then rounds - 1 else fuel);
  }

  /**
   * The re-hash loop of select_P: starting from the hash of the path, apply
   * `H = H ^ simple_hash(&H, 4)` and try `H % ntargets` until its bit is
   * clear, for at most `fuel` rounds.
   */
  method Rehash(path: seq<byte>, loc: Word, ntargets: nat, fuel: nat)
      returns (found: bool, p: nat, rounds: nat)
    requires 0 < ntargets < Hashing.Two32
    ensures found ==>
      0 < rounds <= fuel && p == Candidate(path, rounds - 1, ntargets) && !TestBit(loc, p) &&
      AllTaken(path, loc, ntargets, rounds - 1)
    ensures !found ==>
      rounds == fuel && AllTaken(path, loc, ntargets, fuel)
  {
    var h := Hashing.SimpleHash(path);
    found, p, rounds := false, 0, 0;
    while rounds < fuel && !found
      invariant rounds <= fuel
      invariant h == HashChain(Hashing.HashOf(path), rounds)
      invariant found ==> 0 < rounds && p == Candidate(path, rounds - 1, ntargets) && !TestBit(loc, p)
      invariant AllTaken(path, loc, ntargets, if found then rounds - 1 else rounds)
    {
      ChainStep(Hashing.HashOf(path), rounds);
      h := NextHash(h);
      p := h % ntargets;
      found := !TestBit(loc, p);
      if !found {
        TakenStep(path, loc, ntargets, rounds);
      }
      rounds := rounds + 1;
    }
  }

  /** One round of `H = H ^ simple_hash((const char *)&H, sizeof(H))`. */
  method NextHash(h: Hashing.u32) returns (h': Hashing.u32)
    ensures h' == Xor32(h, Hashing.HashOf(Hashing.BytesOfU32(h)))
  {
    var h2 := Hashing.SimpleHash(Hashing.BytesOfU32(h));
    h' := Xor32(h, h2);
  }

  /**
   * What select_P's choice guarantees: the owner is a target below ntargets
   * that holds no replica, and every location bit is kept.
   */
  lemma OwnerIsFree(fi: FileInfo, p: nat, ntargets: nat)
    requires ntargets <= MaxStorageTargets && p < ntargets
    requires !TestBit(fi.locations, p)
    ensures var loc := WithP(fi.locations, p);
      GetP(loc) == p && !TestBit(loc, GetP(loc)) &&
      forall i :: 0 <= i < MaxStorageTargets ==> (TestBit(loc, i) <==> TestBit(fi.locations, i))
  {
    assert p % 256 == p;
  }

  /**
   * When every location is a target below ntargets and not every target is
   * in use, some target is free, so the re-hash loop has somewhere to stop.
   */
  lemma FreeTargetExists(loc: Word, ntargets: nat)
    requires ntargets <= MaxStorageTargets
    requires forall i :: 0 <= i < MaxStorageTargets && loc[i] ==> i < ntargets
    requires StsInUse(loc) != ntargets
    ensures exists p: nat :: p < ntargets && !TestBit(loc, p)
  {
    if forall p: nat :: p < ntargets ==> TestBit(loc, p) {
      PopCountOfPrefix(loc, ntargets, MaxStorageTargets);
      assert false;
    }
  }

  /** A word whose set location bits are exactly 0 .. n-1 has n of them below any k >= n. */
  lemma {:induction false} PopCountOfPrefix(loc: Word, n: nat, k: nat)
    requires n <= k <= MaxStorageTargets
    requires forall p: nat :: p < n ==> TestBit(loc, p)
    requires forall i :: 0 <= i < MaxStorageTargets && loc[i] ==> i < n
    ensures PopCount(loc, k) == n
  {
    if k > n {
      PopCountOfPrefix(loc, n, k - 1);
    } else if k > 0 {
      PopCountUpTo(loc, k);
    }
  }

  lemma {:induction false} PopCountUpTo(loc: Word, k: nat)
    requires k <= MaxStorageTargets
    requires forall p: nat :: p < k ==> TestBit(loc, p)
    ensures PopCount(loc, k) == k
  {
    if k > 0 {
      assert TestBit(loc, k - 1);
      PopCountUpTo(loc, k - 1);
    }
  }
}
