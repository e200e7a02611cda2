/**
 * Task execution of bp-parity-gen/task_processing.c: which role a rank
 * takes for a file, where the parity file goes, how the parity block is
 * computed and how many transfer windows each side counts. MPI messages,
 * reads and writes are inputs and outputs of the methods; records use the
 * array layout of module Locations.
 */
module Tasks {

  import opened Bytes
  import opened Locations
  import Bitmask
  import Placement

  /** FILE_TRANSFER_BUFFER_SIZE. */
  const BufferSize: nat := 10 * 1024 * 1024

  // ---------------------------------------------------------------- roles

  datatype Role = ParityGenerator | ChunkSender | NotInvolved

  /** The found_in_srcs loop: whether the rank appears in any of the MAX_LOCS slots. */
  method FoundInSrcs(locations: seq<int>, myRank: int) returns (found: bool)
    ensures found <==> myRank in locations
  {
    found := false;
    var j := 0;
    while j < |locations|
      invariant j <= |locations|
      invariant found <==> myRank in locations[..j]
    {
      assert locations[..j + 1] == locations[..j] + [locations[j]];
      found := found || locations[j] == myRank;
      j := j + 1;
    }
    assert locations[..j] == locations;
  }

  /**
   * process_task: the parity owner generates parity; otherwise a listed
   * rank above 0 sends its chunk; the result says whether a role was taken.
   */
  method ProcessTask(myRank: int, fi: FileInfo, pIndex: nat) returns (role: Role, involved: bool)
    requires pIndex < |fi.locations|
    ensures role == ParityGenerator <==> fi.locations[pIndex] == myRank
    ensures role == ChunkSender <==> fi.locations[pIndex] != myRank && myRank in fi.locations && myRank > 0
    ensures involved <==> role != NotInvolved
  {
    var found := FoundInSrcs(fi.locations, myRank);
    if fi.locations[pIndex] == myRank {
      role := ParityGenerator;
    } else if found && myRank > 0 {
      role := ChunkSender;
    } else {
      role := NotInvolved;
    }
    involved := role != NotInvolved;
  }

  /** k counts the leading non-zero entries among the first n. */
  predicate IsActiveCount(ranks: seq<int>, n: nat, k: nat)
    requires n <= |ranks|
  {
    k <= n && (forall j :: 0 <= j < k ==> ranks[j] != 0) && (k < n ==> ranks[k] == 0)
  }

  /** At most one count fits. */
  lemma ActiveCountUnique(ranks: seq<int>, n: nat, k1: nat, k2: nat)
    requires n <= |ranks| && IsActiveCount(ranks, n, k1) && IsActiveCount(ranks, n, k2)
    ensures k1 == k2
  {
  }

  /** active_ranks: the number of leading non-zero entries among the first n. */
  method ActiveRanks(ranks: seq<int>, n: nat) returns (k: nat)
    requires n <= |ranks|
    ensures IsActiveCount(ranks, n, k)
  {
    k := 0;
    while k < n && ranks[k] != 0
      invariant k <= n
      invariant forall j :: 0 <= j < k ==> ranks[j] != 0
    {
      k := k + 1;
    }
  }

  // ---------------------------------------------------------------- arithmetic

  /** div_round_up on uint64_t: the sum a + (b - 1) wraps modulo 2^64. */
  function DivRoundUp(a: u64, b: u64): u64
    requires b > 0
  {
    ((a + (b - 1)) % Two64) / b
  }

  /** Without overflow, div_round_up is the ceiling: the least r with r * b >= a. */
  lemma DivRoundUpIsCeiling(a: u64, b: u64)
    requires b > 0 && a + (b - 1) < Two64
    ensures DivRoundUp(a, b) * b >= a
    ensures DivRoundUp(a, b) == 0 || (DivRoundUp(a, b) - 1) * b < a
  {
    var r := DivRoundUp(a, b);
    assert r == (a + (b - 1)) / b;
    var m := (a + (b - 1)) % b;
    assert r * b + m == a + (b - 1);
  }

  /** div_round_up(0, b) is 0 for every b > 0. */
  lemma DivRoundUpZero(b: u64)
    requires b > 0
    ensures DivRoundUp(0, b) == 0
  {
    assert (0 + (b - 1)) % Two64 == b - 1;
    assert (b - 1) / b == 0;
  }

  /** Ceiling division on unbounded naturals. */
  function Ceil(a: nat, b: nat): nat
    requires b > 0
  {
    (a + b - 1) / b
  }

  /** The int conversion of expected_messages: two's complement truncation to 32 bits. */
  function Int32(x: u64): (v: int)
    ensures -0x8000_0000 <= v < 0x8000_0000
    ensures (x - v) % 0x1_0000_0000 == 0
    ensures x < 0x8000_0000 ==> v == x
  {
    var m := x % 0x1_0000_0000;
    if m < 0x8000_0000 then m else m - 0x1_0000_0000
  }

  // ---------------------------------------------------------------- parity path

  const ChunksA: string := "/store01/chunks/"
  const ChunksB: string := "/store02/chunks/"

  /** Where open_fileid_new_parity writes. */
  datatype ParityTarget = DevNull | ParityFile(path: string)

  /** snprintf into char tmp[256]: at most 255 characters are kept. */
  function Truncate(s: string, n: nat): (t: string)
    ensures |t| <= n && |t| <= |s| && t == s[..|t|]
    ensures |s| <= n ==> t == s
  {
    if |s| <= n then s else s[..n]
  }

  /**
   * open_fileid_new_parity's path: an id under /store01/chunks/ or
   * /store02/chunks/ keeps its store digit and its path below chunks/, under
   * parity/ instead; any other id is redirected to /dev/null.
   */
  function ParityTargetOf(id: string): (t: ParityTarget)
    ensures t.ParityFile? <==> |id| >= |ChunksA| && (id[..|ChunksA|] == ChunksA || id[..|ChunksB|] == ChunksB)
    ensures t.ParityFile? ==> |t.path| <= 255
  {
    if |id| >= |ChunksA| && (id[..|ChunksA|] == ChunksA || id[..|ChunksB|] == ChunksB) then
      ParityFile(Truncate("/store0" + [id[7]] + "/parity/" + id[|ChunksA|..], 255))
    else
      DevNull
  }

  /** The rewrite on a chunk path: /store0N/chunks/rel goes to /store0N/parity/rel, cut to 255 characters. */
  lemma ParityRewrite(store: char, rel: string)
    requires store == '1' || store == '2'
    ensures var t := ParityTargetOf("/store0" + [store] + "/chunks/" + rel);
      t.ParityFile? && t.path == Truncate("/store0" + [store] + "/parity/" + rel, 255)
      && |t.path| <= 255
      && (|rel| <= 239 ==> t.path == "/store0" + [store] + "/parity/" + rel)
  {
    var id := "/store0" + [store] + "/chunks/" + rel;
    assert id[..16] == "/store0" + [store] + "/chunks/";
    assert id[7] == store;
    assert id[16..] == rel;
  }

  /** Distinct chunk paths short enough not to be cut get distinct parity files. */
  lemma ParityPathsDistinct(id1: string, id2: string)
    requires ParityTargetOf(id1).ParityFile? && ParityTargetOf(id2).ParityFile?
    requires |id1| <= 255 && |id2| <= 255
    requires ParityTargetOf(id1) == ParityTargetOf(id2)
    ensures id1 == id2
  {
    var p1 := "/store0" + [id1[7]] + "/parity/" + id1[16..];
    var p2 := "/store0" + [id2[7]] + "/parity/" + id2[16..];
    assert |p1| == |id1| && |p2| == |id2|;
    assert p1 == p2;
    assert p1[7] == id1[7] && p2[7] == id2[7];
    assert p1[16..] == id1[16..] && p2[16..] == id2[16..];
    assert id1 == id1[..16] + id1[16..] && id2 == id2[..16] + id2[16..];
    assert id1[..16] == id2[..16] by {
      assert id1[..16] == ChunksA || id1[..16] == ChunksB;
      assert id2[..16] == ChunksA || id2[..16] == ChunksB;
      assert ChunksA[7] == '1' && ChunksB[7] == '2';
      assert id1[7] == id1[..16][7] && id2[7] == id2[..16][7];
    }
  }

  // ---------------------------------------------------------------- mkdir -p

  /** The C string held in a buffer: everything before the first NUL. */
  function CString(a: seq<char>): (s: seq<char>)
    ensures |s| <= |a| && s == a[..|s|] && '\0' !in s
    ensures |s| < |a| ==> a[|s|] == '\0'
  {
    if a == [] || a[0] == '\0' then [] else [a[0]] + CString(a[1..])
  }

  /**
   * mkdir_for_file: every directory along the path is created, shortest
   * first: exactly the prefixes that end just before a '/' at position 1 or
   * later. The last component is never created; tmp is restored after each
   * call, and the C string mkdir receives is tmp up to the NUL just written.
   */
  method MkdirForFile(filename: string) returns (made: seq<string>)
    requires |filename| < 256 && '\0' !in filename
    ensures forall k :: 0 <= k < |made| ==>
      1 <= |made[k]| < |filename| && made[k] == filename[..|made[k]|] && filename[|made[k]|] == '/'
    ensures forall k, l :: 0 <= k < l < |made| ==> |made[k]| < |made[l]|
    ensures forall i :: 1 <= i < |filename| && filename[i] == '/' ==> filename[..i] in made
  {
    var tmp := new char[256]((k: int) => if 0 <= k < |filename| then filename[k] else '\0');
    ghost var padded := tmp[..];
    made := [];
    var p := 1;
    while tmp[p] != '\0'
      decreases 256 - p
      invariant 1 <= p < 256 && (p <= |filename| || p == 1)
      invariant tmp[..] == padded
      invariant forall k :: 0 <= k < |made| ==>
        1 <= |made[k]| < p && made[k] == filename[..|made[k]|] && filename[|made[k]|] == '/'
      invariant forall k, l :: 0 <= k < l < |made| ==> |made[k]| < |made[l]|
      invariant forall i :: 1 <= i < p && i < |filename| && filename[i] == '/' ==> filename[..i] in made
    {
      if tmp[p] == '/' {
        tmp[p] := '\0';
        var dir := CString(tmp[..]);
        assert dir == filename[..p] by {
          CStringAt(tmp[..], filename[..p]);
        }
        made := made + [dir];
        tmp[p] := '/';
        assert tmp[..] == padded;
      }
      p := p + 1;
    }
  }

  lemma CStringAt(a: seq<char>, s: seq<char>)
    requires |s| < |a| && a[..|s|] == s && '\0' !in s && a[|s|] == '\0'
    ensures CString(a) == s
  {
  }

  // ---------------------------------------------------------------- xor_parity

  lemma Pow2Of8()
    ensures Bitmask.Pow2(8) == 256
  {
    assert Bitmask.Pow2(4) == 16;
  }

  /** Byte XOR, written with the arithmetic XOR of module Placement. */
  function XorByte(a: byte, b: byte): byte
  {
    Pow2Of8();
    Placement.Xor(a as int, b as int, 8) as byte
  }

  lemma {:induction false} XorZeroLeft(b: nat, n: nat)
    ensures Placement.Xor(0, b, n) == b % Bitmask.Pow2(n)
  {
    if n > 0 {
      XorZeroLeft(b / 2, n - 1);
      var p := Bitmask.Pow2(n - 1);
      assert b == 2 * (b / 2) + b % 2;
      assert (b / 2) % p < p;
      Bitmask.HalveModulus(b, p);
    }
  }

  lemma {:induction false} XorSelf(a: nat, n: nat)
    ensures Placement.Xor(a, a, n) == 0
  {
    if n > 0 {
      XorSelf(a / 2, n - 1);
    }
  }

  /** 0 is the identity of byte XOR and every byte is its own inverse. */
  lemma XorByteLaws(a: byte, b: byte)
    ensures XorByte(0, b) == b
    ensures XorByte(a, a) == 0
  {
    Pow2Of8();
    var x := Placement.Xor(0, b as int, 8);
    XorZeroLeft(b as int, 8);
    Placement.ByteMod(b as int);
    assert x == b as int;
    XorSelf(a as int, 8);
  }

  /** One source of n bytes XORed into the first n bytes of d. */
  function XorInto(d: seq<byte>, s: seq<byte>, n: nat): (r: seq<byte>)
    requires n <= |d| && n <= |s|
    ensures |r| == |d|
  {
    seq(|d|, i requires 0 <= i < |d| => if i < n then XorByte(d[i], s[i]) else d[i])
  }

  lemma MulStep(j: nat, n: nat, k: nat)
    requires j < k
    ensures j * n + n == (j + 1) * n <= k * n
  {
    assert (j + 1) * n <= k * n by {
      var d := k - (j + 1);
      assert k * n == (j + 1) * n + d * n;
    }
  }

  /** The first k sources of data, n bytes each, XORed into d in order. */
  function XorSources(d: seq<byte>, data: seq<byte>, n: nat, k: nat): (r: seq<byte>)
    requires n <= |d| && k * n <= |data|
    ensures |r| == |d|
    ensures forall i :: n <= i < |d| ==> r[i] == d[i]
  {
    if k == 0 then d
    else
      MulStep(k - 1, n, k);
      XorInto(XorSources(d, data, n, k - 1), data[(k - 1) * n .. k * n], n)
  }

  /** Byte i of d XORed with byte i of each of the first k sources. */
  function FoldByte(x: byte, data: seq<byte>, n: nat, k: nat, i: nat): byte
    requires i < n && k * n <= |data|
  {
    if k == 0 then x
    else
      MulStep(k - 1, n, k);
      XorByte(FoldByte(x, data, n, k - 1, i), data[(k - 1) * n + i])
  }

  /** Each byte below n is touched once per source: dst'[i] = dst[i] ^ src_0[i] ^ ... ^ src_{k-1}[i]. */
  lemma {:induction false} XorSourcesAt(d: seq<byte>, data: seq<byte>, n: nat, k: nat, i: nat)
    requires n <= |d| && k * n <= |data| && i < n
    ensures XorSources(d, data, n, k)[i] == FoldByte(d[i], data, n, k, i)
  {
    if k > 0 {
      MulStep(k - 1, n, k);
      XorSourcesAt(d, data, n, k - 1, i);
    }
  }

  /** With a zeroed parity block, a single source is copied unchanged. */
  lemma XorSingleSource(d: seq<byte>, data: seq<byte>, n: nat)
    requires n <= |d| && n <= |data|
    requires forall i :: 0 <= i < n ==> d[i] == 0
    ensures XorSources(d, data, n, 1)[..n] == data[..n]
  {
    var r := XorSources(d, data, n, 1);
    assert XorSources(d, data, n, 0) == d;
    assert (1 - 1) * n == 0 && 1 * n == n;
    assert r == XorInto(d, data[0..n], n);
    forall i | 0 <= i < n ensures r[i] == data[i] {
      XorByteLaws(0, data[i]);
      assert r[i] == XorByte(d[i], data[0..n][i]);
    }
  }

  /** One source's pass of xor_parity: the 8-byte loop, then the byte loop. */
  method XorSource(dst: array<byte>, nbytes: nat, data: array<byte>, off: nat)
    requires nbytes <= dst.Length && off + nbytes <= data.Length && dst != data
    modifies dst
    ensures dst[..] == XorInto(old(dst[..]), data[off..off + nbytes], nbytes)
  {
    var i := 0;
    while i + 8 < nbytes
      invariant i <= nbytes
      invariant forall k :: 0 <= k < i ==> dst[k] == XorByte(old(dst[k]), data[off + k])
      invariant forall k :: i <= k < dst.Length ==> dst[k] == old(dst[k])
    {
      // one uint64_t XOR is the XOR of its eight bytes
      forall k | i <= k < i + 8 {
        dst[k] := XorByte(dst[k], data[off + k]);
      }
      i := i + 8;
    }
    while i < nbytes
      invariant i <= nbytes
      invariant forall k :: 0 <= k < i ==> dst[k] == XorByte(old(dst[k]), data[off + k])
      invariant forall k :: i <= k < dst.Length ==> dst[k] == old(dst[k])
    {
      dst[i] := XorByte(dst[i], data[off + i]);
      i := i + 1;
    }
  }

  /** xor_parity: the nsources blocks of nbytes at the front of data XORed into dst. */
  method XorParity(dst: array<byte>, nbytes: nat, data: array<byte>, nsources: nat)
    requires nbytes <= dst.Length && nsources * nbytes <= data.Length && dst != data
    modifies dst
    ensures dst[..] == XorSources(old(dst[..]), data[..], nbytes, nsources)
  {
    var j := 0;
    while j < nsources
      invariant j <= nsources
      invariant dst[..] == XorSources(old(dst[..]), data[..], nbytes, j)
    {
      MulStep(j, nbytes, nsources);
      XorSource(dst, nbytes, data, j * nbytes);
      assert data[..][j * nbytes .. (j + 1) * nbytes] == data[j * nbytes .. j * nbytes + nbytes];
      j := j + 1;
    }
  }

  // ---------------------------------------------------------------- windows

  /** n bytes of 0, what calloc hands back. */
  function ZeroBytes(n: nat): (z: seq<byte>)
    ensures |z| == n && forall i :: 0 <= i < n ==> z[i] == 0
  {
    seq(n, _ => 0)
  }

  lemma MulMono(n: nat, a: nat, b: nat)
    requires a <= b
    ensures n * a <= n * b
  {
    assert n * b == n * a + n * (b - a);
  }

  /** MIN(FILE_TRANSFER_BUFFER_SIZE, max_chunk_size): the bytes of every window. */
  function WindowSize(max: u64): (bs: nat)
    ensures bs <= BufferSize && bs <= max && (max > 0 ==> bs > 0)
  {
    Bitmask.Min(BufferSize, max)
  }

  /** expected_messages of the generator: div_round_up stored in an int. */
  function GeneratorWindows(max: u64): int
  {
    Int32(DivRoundUp(max, BufferSize))
  }

  /** The iterations of the sender's loop: read_from_fd grows by the window size until it reaches max. */
  function SenderWindows(max: u64): nat
  {
    if max == 0 then 0 else Ceil(max, WindowSize(max))
  }

  /** Ceil(a, b) is the least i with i * b >= a. */
  lemma CeilIsLeast(a: nat, b: nat, i: nat)
    requires b > 0
    ensures i * b < a <==> i < Ceil(a, b)
  {
    var c := Ceil(a, b);
    var m := (a + b - 1) % b;
    assert c * b + m == a + b - 1;
    if i < c {
      Bytes.MulAtLeast(b, c - i);
      assert i * b + b <= c * b;
    } else if i > c {
      assert c * b <= i * b by {
        assert i * b == c * b + (i - c) * b;
      }
    }
  }

  /**
   * Window symmetry: the sender sends as many windows as the generator
   * waits for, for every size including 0, as long as the count fits the
   * generator's int.
   */
  lemma WindowCountsAgree(max: u64)
    requires max <= 0x7FFF_FFFF * BufferSize
    ensures GeneratorWindows(max) == SenderWindows(max)
  {
    if max == 0 {
      DivRoundUpZero(BufferSize);
    } else if max < BufferSize {
      ModUnique(max + BufferSize - 1, BufferSize, 1, max - 1);
      assert DivRoundUp(max, BufferSize) == 1;
      ModUnique(max + max - 1, max, 1, max - 1);
    } else {
      assert DivRoundUp(max, BufferSize) == Ceil(max, BufferSize);
      CeilIsLeast(max, BufferSize, 0x7FFF_FFFF);
    }
  }

  function Sum(s: seq<u64>): nat
  {
    if s == [] then 0 else Sum(s[..|s| - 1]) + s[|s| - 1]
  }

  /** Reducing the left operand first does not change a sum modulo d. */
  lemma ModAddLeft(a: nat, x: nat, d: nat)
    requires d > 0
    ensures (a % d + x) % d == (a + x) % d
  {
    var r := (a % d + x) % d;
    var q := (a % d + x) / d;
    assert a + x == d * (a / d + q) + r;
    ModUnique(a + x, d, a / d + q, r);
  }

  /** The header loop: full_size accumulates in a uint64_t, so the sum wraps modulo 2^64. */
  method FullSize(sizes: seq<u64>) returns (full: u64)
    ensures full == Sum(sizes) % Two64
  {
    full := 0;
    var i := 0;
    while i < |sizes|
      invariant i <= |sizes|
      invariant full == Sum(sizes[..i]) % Two64
    {
      assert sizes[..i + 1][..i] == sizes[..i];
      ModAddLeft(Sum(sizes[..i]), sizes[i], Two64);
      full := (full + sizes[i]) % Two64;
      i := i + 1;
    }
    assert sizes[..i] == sizes;
  }

  /** The sources' messages of one window laid out one after another, as data holds them. */
  function Flatten(msgs: seq<seq<byte>>): seq<byte>
  {
    if msgs == [] then [] else Flatten(msgs[..|msgs| - 1]) + msgs[|msgs| - 1]
  }

  lemma {:induction false} FlattenLength(msgs: seq<seq<byte>>, bs: nat)
    requires forall s :: 0 <= s < |msgs| ==> |msgs[s]| == bs
    ensures |Flatten(msgs)| == |msgs| * bs
  {
    if msgs != [] {
      FlattenLength(msgs[..|msgs| - 1], bs);
    }
  }

  /** Only the first k sources of data matter to XorSources. */
  lemma {:induction false} XorSourcesPrefix(d: seq<byte>, a: seq<byte>, b: seq<byte>, n: nat, k: nat)
    requires n <= |d| && k * n <= |a| && k * n <= |b| && a[..k * n] == b[..k * n]
    ensures XorSources(d, a, n, k) == XorSources(d, b, n, k)
  {
    if k > 0 {
      MulStep(k - 1, n, k);
      assert a[..(k - 1) * n] == b[..(k - 1) * n] by {
        assert a[..(k - 1) * n] == a[..k * n][..(k - 1) * n];
        assert b[..(k - 1) * n] == b[..k * n][..(k - 1) * n];
      }
      XorSourcesPrefix(d, a, b, n, k - 1);
      assert a[(k - 1) * n .. k * n] == b[(k - 1) * n .. k * n] by {
        assert a[(k - 1) * n .. k * n] == a[..k * n][(k - 1) * n ..];
        assert b[(k - 1) * n .. k * n] == b[..k * n][(k - 1) * n ..];
      }
    }
  }

  /** Every message of every window carries bs bytes. */
  predicate Uniform(windows: seq<seq<seq<byte>>>, bs: nat)
  {
    forall k, s :: 0 <= k < |windows| && 0 <= s < |windows[k]| ==> |windows[k][s]| == bs
  }

  /**
   * The parity block after w windows: P_block starts zeroed and is never
   * cleared, so each window's sources are XORed onto all earlier ones.
   */
  function Accumulated(p0: seq<byte>, windows: seq<seq<seq<byte>>>, bs: nat, w: nat): (p: seq<byte>)
    requires bs <= |p0| && w <= |windows| && Uniform(windows, bs)
    ensures |p| == |p0|
  {
    if w == 0 then p0
    else
      var msgs := windows[w - 1];
      FlattenLength(msgs, bs);
      XorSources(Accumulated(p0, windows, bs, w - 1), Flatten(msgs), bs, |msgs|)
  }

  /** The first w blocks the generator would write, each the first bs bytes of P_block after that window. */
  function Blocks(p0: seq<byte>, windows: seq<seq<seq<byte>>>, bs: nat, w: nat): (b: seq<seq<byte>>)
    requires bs <= |p0| && w <= |windows| && Uniform(windows, bs)
    ensures |b| == w
  {
    if w == 0 then [] else Blocks(p0, windows, bs, w - 1) + [Accumulated(p0, windows, bs, w)[..bs]]
  }

  lemma {:induction false} BlocksAt(p0: seq<byte>, windows: seq<seq<seq<byte>>>, bs: nat, w: nat, k: nat)
    requires bs <= |p0| && w <= |windows| && Uniform(windows, bs) && k < w
    ensures Blocks(p0, windows, bs, w)[k] == Accumulated(p0, windows, bs, k + 1)[..bs]
  {
    var prev := Blocks(p0, windows, bs, w - 1);
    assert Blocks(p0, windows, bs, w) == prev + [Accumulated(p0, windows, bs, w)[..bs]];
    if k < w - 1 {
      BlocksAt(p0, windows, bs, w - 1, k);
    }
  }

  /** Index of the first false entry, or the length when there is none. */
  function FirstFalse(s: seq<bool>): (i: nat)
    ensures i <= |s| && (i < |s| ==> !s[i])
    ensures forall j :: 0 <= j < i ==> s[j]
  {
    if s == [] || !s[0] then 0 else 1 + FirstFalse(s[1..])
  }

  /** One MPI receive per source into data + src * bs. */
  method ReceiveWindow(data: array<byte>, msgs: seq<seq<byte>>, bs: nat)
    requires forall s :: 0 <= s < |msgs| ==> |msgs[s]| == bs
    requires |msgs| * bs <= data.Length
    modifies data
    ensures |Flatten(msgs)| == |msgs| * bs
    ensures data[..|msgs| * bs] == Flatten(msgs)
  {
    FlattenLength(msgs, bs);
    var src := 0;
    while src < |msgs|
      invariant src <= |msgs|
      invariant src * bs <= data.Length
      invariant data[..src * bs] == Flatten(msgs[..src])
    {
      MulStep(src, bs, |msgs|);
      CopyAt(data, src * bs, msgs[src]);
      FlattenSnoc(msgs, src);
      src := src + 1;
    }
    assert msgs[..src] == msgs;
  }

  /** One MPI receive: the message lands at off, and the bytes before it are kept. */
  method CopyAt(data: array<byte>, off: nat, m: seq<byte>)
    requires off + |m| <= data.Length
    modifies data
    ensures data[..off + |m|] == old(data[..off]) + m
  {
    forall k | 0 <= k < |m| {
      data[off + k] := m[k];
    }
  }

  lemma FlattenSnoc(msgs: seq<seq<byte>>, i: nat)
    requires i < |msgs|
    ensures Flatten(msgs[..i + 1]) == Flatten(msgs[..i]) + msgs[i]
  {
    assert msgs[..i + 1][..i] == msgs[..i];
  }

  /** One window: the sources' messages land in data, then are XORed into P_block. */
  method GenerateWindow(data: array<byte>, pBlock: array<byte>, msgs: seq<seq<byte>>, bs: nat)
    requires forall s :: 0 <= s < |msgs| ==> |msgs[s]| == bs
    requires |msgs| * bs <= data.Length && bs <= pBlock.Length && data != pBlock
    modifies data, pBlock
    ensures |Flatten(msgs)| == |msgs| * bs
    ensures pBlock[..] == XorSources(old(pBlock[..]), Flatten(msgs), bs, |msgs|)
  {
    ReceiveWindow(data, msgs, bs);
    ghost var before := pBlock[..];
    XorParity(pBlock, bs, data, |msgs|);
    XorSourcesPrefix(before, data[..], Flatten(msgs), bs, |msgs|);
  }

  /**
   * parity_generator for the n = |sizes| active sources: the header is the
   * sum of the announced sizes, then every expected window is received and
   * XORed into P_block, whose first bs bytes are written while no write has
   * failed. The header write is attempted even when the open failed (and
   * then fails); receives and XORs go on after a failed write.
   */
  method ParityGeneratorRun(task: FileInfo, isOpen: bool, sizes: seq<u64>,
                            windows: seq<seq<seq<byte>>>, writeOk: seq<bool>)
    returns (header: u64, blocks: seq<seq<byte>>, failed: bool, last: seq<byte>)
    requires IsActiveCount(task.locations, |task.locations|, |sizes|)
    requires |windows| == if GeneratorWindows(task.maxChunkSize) < 0 then 0 else GeneratorWindows(task.maxChunkSize)
    requires forall k :: 0 <= k < |windows| ==> |windows[k]| == |sizes|
    requires Uniform(windows, WindowSize(task.maxChunkSize))
    requires |writeOk| > |windows|
    ensures header == Sum(sizes) % Two64
    ensures |blocks| == if isOpen && writeOk[0] then Bitmask.Min(|windows|, FirstFalse(writeOk[1..]) + 1) else 0
    ensures blocks == Blocks(ZeroBytes(BufferSize), windows, WindowSize(task.maxChunkSize), |blocks|)
    ensures failed <==> !(isOpen && writeOk[0]) || FirstFalse(writeOk[1..]) < |blocks|
    ensures last == Accumulated(ZeroBytes(BufferSize), windows, WindowSize(task.maxChunkSize), |windows|)[..WindowSize(task.maxChunkSize)]
  {
    var n := ActiveRanks(task.locations, |task.locations|);
    ActiveCountUnique(task.locations, |task.locations|, n, |sizes|);
    var bs := WindowSize(task.maxChunkSize);
    var data := new byte[n * BufferSize](_ => 0);
    var pBlock := new byte[BufferSize](_ => 0);
    assert pBlock[..] == ZeroBytes(BufferSize);
    header := FullSize(sizes);
    failed := !(isOpen && writeOk[0]);
    MulMono(n, bs, BufferSize);
    blocks, failed := WindowLoop(data, pBlock, windows, n, bs, GeneratorWindows(task.maxChunkSize), writeOk[1..], failed, ZeroBytes(BufferSize));
    last := pBlock[..bs];
  }

  /**
   * The window loop of parity_generator: receive and XOR every expected
   * window; write P_block while no write has failed (writes[k] is the
   * outcome of the k-th block write).
   */
  method WindowLoop(data: array<byte>, pBlock: array<byte>, windows: seq<seq<seq<byte>>>, n: nat, bs: nat,
                    expected: int, writes: seq<bool>, failed0: bool, ghost p0: seq<byte>)
    returns (blocks: seq<seq<byte>>, failed: bool)
    requires |windows| == if expected < 0 then 0 else expected
    requires forall k :: 0 <= k < |windows| ==> |windows[k]| == n
    requires Uniform(windows, bs)
    requires n * bs <= data.Length && bs <= pBlock.Length == BufferSize && data != pBlock
    requires pBlock[..] == p0
    requires |writes| >= |windows|
    modifies data, pBlock
    ensures pBlock[..] == Accumulated(p0, windows, bs, |windows|)
    ensures |blocks| == if failed0 then 0 else Bitmask.Min(|windows|, FirstFalse(writes) + 1)
    ensures blocks == Blocks(p0, windows, bs, |blocks|)
    ensures failed <==> failed0 || FirstFalse(writes) < |blocks|
  {
    ghost var w := FirstFalse(writes);
    failed := failed0;
    blocks := [];
    var msgI := 0;
    while msgI < expected
      invariant 0 <= msgI <= |windows|
      invariant expected < 0 ==> msgI == 0
      invariant pBlock[..] == Accumulated(p0, windows, bs, msgI)
      invariant |blocks| == if failed0 then 0 else Bitmask.Min(msgI, w + 1)
      invariant !failed ==> |blocks| == msgI
      invariant blocks == Blocks(p0, windows, bs, |blocks|)
      invariant failed <==> failed0 || w < |blocks|
    {
      blocks, failed := WindowStep(data, pBlock, windows, n, bs, msgI, writes, failed0, p0, blocks, failed);
      msgI := msgI + 1;
    }
  }

  /** One iteration of the window loop: receive and XOR window msgI, then write P_block unless a write failed. */
  method WindowStep(data: array<byte>, pBlock: array<byte>, windows: seq<seq<seq<byte>>>, n: nat, bs: nat,
                    msgI: nat, writes: seq<bool>, failed0: bool, ghost p0: seq<byte>,
                    blocks0: seq<seq<byte>>, failedIn: bool)
    returns (blocks: seq<seq<byte>>, failed: bool)
    requires msgI < |windows| <= |writes|
    requires forall k :: 0 <= k < |windows| ==> |windows[k]| == n
    requires Uniform(windows, bs)
    requires n * bs <= data.Length && bs <= pBlock.Length == BufferSize == |p0| && data != pBlock
    requires pBlock[..] == Accumulated(p0, windows, bs, msgI)
    requires |blocks0| == if failed0 then 0 else Bitmask.Min(msgI, FirstFalse(writes) + 1)
    requires !failedIn ==> |blocks0| == msgI
    requires blocks0 == Blocks(p0, windows, bs, |blocks0|)
    requires failedIn <==> failed0 || FirstFalse(writes) < |blocks0|
    modifies data, pBlock
    ensures pBlock[..] == Accumulated(p0, windows, bs, msgI + 1)
    ensures |blocks| == if failed0 then 0 else Bitmask.Min(msgI + 1, FirstFalse(writes) + 1)
    ensures !failed ==> |blocks| == msgI + 1
    ensures blocks == Blocks(p0, windows, bs, |blocks|)
    ensures failed <==> failed0 || FirstFalse(writes) < |blocks|
  {
    GenerateWindow(data, pBlock, windows[msgI], bs);
    assert pBlock[..] == Accumulated(p0, windows, bs, msgI + 1);
    blocks, failed := blocks0, failedIn;
    if !failed {
      blocks := blocks + [pBlock[..bs]];
      failed := !writes[|blocks| - 1];
    }
  }

  // ------------------------------------------------- parity per window

  /** The parity of one window alone: its sources XORed onto a zeroed block. */
  function WindowParity(msgs: seq<seq<byte>>, bs: nat): (p: seq<byte>)
    requires bs <= BufferSize && forall s :: 0 <= s < |msgs| ==> |msgs[s]| == bs
    ensures |p| == bs
  {
    FlattenLength(msgs, bs);
    XorSources(ZeroBytes(BufferSize), Flatten(msgs), bs, |msgs|)[..bs]
  }

  /** With a single source the parity of a window is that source's data. */
  lemma SingleSourceParity(m: seq<byte>, bs: nat)
    requires bs <= BufferSize && |m| == bs
    ensures WindowParity([m], bs) == m
  {
    assert Flatten([m]) == m by {
      assert [m][..0] == [];
    }
    XorSingleSource(ZeroBytes(BufferSize), m, bs);
  }

  /**
   * As written, P_block is never cleared. A file of max_chunk_size
   * 2 * FILE_TRANSFER_BUFFER_SIZE on one storage target takes two windows of
   * BufferSize bytes; when both windows carry the same data m, the second
   * block written is all zeros rather than that window's parity m.
   */
  lemma PrefixParityCounterexample(m: seq<byte>)
    requires |m| == BufferSize
    ensures WindowSize(2 * BufferSize) == BufferSize
    ensures GeneratorWindows(2 * BufferSize) == 2 == SenderWindows(2 * BufferSize)
    ensures var windows: seq<seq<seq<byte>>> := [[m], [m]];
      && Uniform(windows, BufferSize)
      && Blocks(ZeroBytes(BufferSize), windows, BufferSize, 2)[1] == ZeroBytes(BufferSize)
      && WindowParity(windows[1], BufferSize) == m
  {
    var max := 2 * BufferSize;
    ModUnique(max + BufferSize - 1, BufferSize, 2, BufferSize - 1);
    assert DivRoundUp(max, BufferSize) == 2;
    assert WindowSize(max) == BufferSize;
    var windows: seq<seq<seq<byte>>> := [[m], [m]];
    var z := ZeroBytes(BufferSize);
    SingleSourceParity(m, BufferSize);
    assert Flatten([m]) == m by {
      assert [m][..0] == [];
    }
    assert windows[0] == windows[1] == [m];
    assert Accumulated(z, windows, BufferSize, 0) == z;
    var a1 := Accumulated(z, windows, BufferSize, 1);
    assert a1 == XorSources(z, m, BufferSize, 1);
    var a2 := Accumulated(z, windows, BufferSize, 2);
    assert a2 == XorSources(a1, m, BufferSize, 1);
    forall i | 0 <= i < BufferSize
      ensures a2[i] == 0
    {
      XorSourcesAt(z, m, BufferSize, 1, i);
      XorByteLaws(0, m[i]);
      XorSourcesAt(a1, m, BufferSize, 1, i);
      XorByteLaws(m[i], m[i]);
    }
    BlocksAt(z, windows, BufferSize, 2, 1);
    assert a2[..BufferSize] == z;
  }

  /** The blocks of a generator that clears P_block before every window. */
  function ParityBlocks(windows: seq<seq<seq<byte>>>, bs: nat, w: nat): (b: seq<seq<byte>>)
    requires bs <= BufferSize && w <= |windows| && Uniform(windows, bs)
    ensures |b| == w
  {
    if w == 0 then [] else ParityBlocks(windows, bs, w - 1) + [WindowParity(windows[w - 1], bs)]
  }

  /** Block k of the corrected generator is the parity of window k and of nothing else. */
  lemma {:induction false} ParityBlocksAt(windows: seq<seq<seq<byte>>>, bs: nat, w: nat, k: nat)
    requires bs <= BufferSize && w <= |windows| && Uniform(windows, bs) && k < w
    ensures ParityBlocks(windows, bs, w)[k] == WindowParity(windows[k], bs)
  {
    if k < w - 1 {
      ParityBlocksAt(windows, bs, w - 1, k);
    }
  }

  /**
   * The window loop with P_block zeroed before each XOR: every block
   * written is the parity of its own window, so with one source the
   * parity file repeats the data.
   */
  method ClearingWindowLoop(data: array<byte>, pBlock: array<byte>, windows: seq<seq<seq<byte>>>, n: nat, bs: nat,
                            expected: int, writes: seq<bool>, failed0: bool)
    returns (blocks: seq<seq<byte>>, failed: bool)
    requires |windows| == if expected < 0 then 0 else expected
    requires forall k :: 0 <= k < |windows| ==> |windows[k]| == n
    requires Uniform(windows, bs)
    requires n * bs <= data.Length && bs <= pBlock.Length == BufferSize && data != pBlock
    requires |writes| >= |windows|
    modifies data, pBlock
    ensures |blocks| == if failed0 then 0 else Bitmask.Min(|windows|, FirstFalse(writes) + 1)
    ensures blocks == ParityBlocks(windows, bs, |blocks|)
    ensures failed <==> failed0 || FirstFalse(writes) < |blocks|
  {
    ghost var w := FirstFalse(writes);
    failed := failed0;
    blocks := [];
    var msgI := 0;
    while msgI < expected
      invariant 0 <= msgI <= |windows|
      invariant expected < 0 ==> msgI == 0
      invariant |blocks| == if failed0 then 0 else Bitmask.Min(msgI, w + 1)
      invariant !failed ==> |blocks| == msgI
      invariant blocks == ParityBlocks(windows, bs, |blocks|)
      invariant failed <==> failed0 || w < |blocks|
    {
      forall i | 0 <= i < pBlock.Length {
        pBlock[i] := 0;
      }
      assert pBlock[..] == ZeroBytes(BufferSize);
      GenerateWindow(data, pBlock, windows[msgI], bs);
      if !failed {
        blocks := blocks + [pBlock[..bs]];
        failed := !writes[|blocks| - 1];
      }
      msgI := msgI + 1;
    }
  }

  /** The sender's buffer after k loop iterations, and whether a read has failed. */
  function SenderState(isOpen: bool, got: seq<seq<byte>>, bs: nat, k: nat): (st: (seq<byte>, bool))
    requires k <= |got| && forall j :: 0 <= j < |got| ==> |got[j]| <= bs
    ensures |st.0| == bs
  {
    if k == 0 then (ZeroBytes(bs), !isOpen)
    else
      var (d, err) := SenderState(isOpen, got, bs, k - 1);
      if err then (d, err)
      else
        var r := got[k - 1];
        (r + d[|r|..], |r| == 0)
  }

  /** The counter arithmetic of one sender iteration: no wrap, and the loop test matches the count. */
  lemma SenderStep(max: u64, i: nat)
    requires max <= Two64 - BufferSize && i < SenderWindows(max)
    ensures i * WindowSize(max) < max
    ensures (i * WindowSize(max) + WindowSize(max)) % Two64 == (i + 1) * WindowSize(max)
    ensures (i + 1) * WindowSize(max) < max <==> i + 1 < SenderWindows(max)
  {
    var bs := WindowSize(max);
    CeilIsLeast(max, bs, i);
    CeilIsLeast(max, bs, i + 1);
    assert i * bs + bs == (i + 1) * bs;
  }

  /** read(fd, data, bs) returning |r| bytes: they overwrite the front of the buffer. */
  method ReadInto(data: array<byte>, r: seq<byte>)
    requires |r| <= data.Length
    modifies data
    ensures data[..] == r + old(data[..])[|r|..]
  {
    forall j | 0 <= j < |r| {
      data[j] := r[j];
    }
  }

  /**
   * chunk_sender: the size of the file (0 when it could not be opened) goes
   * to the parity owner, then one window of bs bytes per iteration until
   * read_from_fd reaches max_chunk_size. A read returning r > 0 bytes
   * overwrites the first r bytes of the buffer; once a read fails, no more
   * reads happen and the buffer is sent again as it is.
   */
  method ChunkSenderRun(task: FileInfo, pIndex: nat, isOpen: bool, fdSize: u64, got: seq<seq<byte>>)
    returns (coordinator: int, sizeMsg: u64, sent: seq<seq<byte>>)
    requires pIndex < |task.locations|
    requires task.maxChunkSize <= Two64 - BufferSize
    requires |got| >= SenderWindows(task.maxChunkSize)
    requires forall j :: 0 <= j < |got| ==> |got[j]| <= WindowSize(task.maxChunkSize)
    ensures coordinator == task.locations[pIndex]
    ensures sizeMsg == if isOpen then fdSize else 0
    ensures |sent| == SenderWindows(task.maxChunkSize)
    ensures forall k :: 0 <= k < |sent| ==>
      sent[k] == SenderState(isOpen, got, WindowSize(task.maxChunkSize), k + 1).0
  {
    coordinator := task.locations[pIndex];
    var dataInFd := task.maxChunkSize;
    var bs := WindowSize(task.maxChunkSize);
    var data := new byte[BufferSize](_ => 0);
    var hadError := !isOpen;
    sizeMsg := if isOpen then fdSize else 0;
    var readFromFd: u64 := 0;
    ghost var count := SenderWindows(task.maxChunkSize);
    sent := [];
    assert data[..bs] == ZeroBytes(bs);
    assert 0 < count <==> 0 < dataInFd;
    while readFromFd < dataInFd
      invariant |sent| <= count && readFromFd == |sent| * bs
      invariant (data[..bs], hadError) == SenderState(isOpen, got, bs, |sent|)
      invariant forall k :: 0 <= k < |sent| ==> sent[k] == SenderState(isOpen, got, bs, k + 1).0
      invariant |sent| < count <==> readFromFd < dataInFd
      decreases count - |sent|
    {
      SenderStep(dataInFd, |sent|);
      if !hadError {
        var r := got[|sent|];
        ReadInto(data, r);
        assert data[..bs] == r + SenderState(isOpen, got, bs, |sent|).0[|r|..];
        hadError := |r| == 0;
      }
      readFromFd := (readFromFd + bs) % Two64;
      sent := sent + [data[..bs]];
    }
  }

  // ------------------------------------------------- counters past the bound

  /** read_from_fd after k iterations of a sender loop that adds bs in uint64_t. */
  function Counter(bs: nat, k: nat): u64
  {
    if k == 0 then 0 else (Counter(bs, k - 1) + bs) % Two64
  }

  /** While nothing wraps, the counter is k windows of bs bytes. */
  lemma {:induction false} CounterExact(bs: nat, k: nat)
    requires k * bs < Two64
    ensures Counter(bs, k) == k * bs
  {
    if k > 0 {
      MulMono(bs, k - 1, k);
      assert (k - 1) * bs == k * bs - bs;
      CounterExact(bs, k - 1);
    }
  }

  /** When bs and 2^64 are multiples of g, so is every value of the counter. */
  lemma {:induction false} CounterAligned(bs: nat, g: nat, k: nat)
    requires g > 0 && bs % g == 0 && Two64 % g == 0
    ensures Counter(bs, k) % g == 0
  {
    if k > 0 {
      CounterAligned(bs, g, k - 1);
      var c := Counter(bs, k - 1);
      AlignedSum(c, bs, g);
      AlignedMod(c + bs, Two64, g);
    }
  }

  lemma AlignedSum(a: nat, b: nat, g: nat)
    requires g > 0 && a % g == 0 && b % g == 0
    ensures (a + b) % g == 0
  {
    assert a == g * (a / g) && b == g * (b / g);
    assert a + b == g * (a / g + b / g);
    ModUnique(a + b, g, a / g + b / g, 0);
  }

  /** Reducing a multiple of g modulo a multiple of g leaves a multiple of g. */
  lemma AlignedMod(x: nat, n: nat, g: nat)
    requires g > 0 && n > 0 && x % g == 0 && n % g == 0
    ensures (x % n) % g == 0
  {
    var q, r := x / n, x % n;
    var a, t := x / g, n / g;
    assert x == g * a && n == g * t;
    assert x == n * q + r;
    assert n * q == g * (t * q);
    assert r == g * (a - t * q);
    ModUnique(r, g, a - t * q, 0);
  }

  /** A multiple of g below g * t is at most g * t - g. */
  lemma AlignedBelow(c: nat, g: nat, t: nat)
    requires g > 0 && c % g == 0 && c < g * t
    ensures c <= g * t - g
  {
    var m := c / g;
    assert c == g * m;
    if m >= t {
      MulMono(g, t, m);
    }
    MulMono(g, m, t - 1);
    assert g * (t - 1) == g * t - g;
  }

  /**
   * As written, `read_from_fd += buffer_size` only ever holds multiples of
   * 2^21 (buffer_size is 5 * 2^21), so for max_chunk_size above 2^64 - 2^21
   * the test read_from_fd < data_in_fd holds after every iteration and the
   * sender loop never ends.
   */
  lemma SenderNeverFinishes(max: u64, k: nat)
    requires max > Two64 - 0x20_0000
    ensures WindowSize(max) == BufferSize
    ensures Counter(WindowSize(max), k) < max
  {
    var g := 0x20_0000;
    ModUnique(BufferSize, g, 5, 0);
    ModUnique(Two64, g, 0x800_0000_0000, 0);
    CounterAligned(BufferSize, g, k);
    AlignedBelow(Counter(BufferSize, k), g, 0x800_0000_0000);
  }

  /**
   * As written, div_round_up(max, BUF) wraps when max + BUF - 1 reaches 2^64,
   * and its conversion to int wraps above (2^31 - 1) BUF: for max = 2^64 - 1
   * the generator expects no window, for max = 2^31 BUF it expects -2^31,
   * while the sender sends 2^31 windows of BUF bytes.
   */
  lemma GeneratorWindowsWrap()
    ensures GeneratorWindows(Two64 - 1) == 0
    ensures GeneratorWindows(0x8000_0000 * BufferSize) == -0x8000_0000
    ensures SenderWindows(0x8000_0000 * BufferSize) == 0x8000_0000
  {
    var top := Two64 - 1;
    ModUnique(top + BufferSize - 1, Two64, 1, BufferSize - 2);
    ModUnique(BufferSize - 2, BufferSize, 0, BufferSize - 2);
    assert DivRoundUp(top, BufferSize) == 0;
    var m := 0x8000_0000 * BufferSize;
    ModUnique(m + BufferSize - 1, Two64, 0, m + BufferSize - 1);
    ModUnique(m + BufferSize - 1, BufferSize, 0x8000_0000, BufferSize - 1);
    assert DivRoundUp(m, BufferSize) == 0x8000_0000;
    ModUnique(0x8000_0000, 0x1_0000_0000, 0, 0x8000_0000);
    assert WindowSize(m) == BufferSize;
  }

  /**
   * div_round_up without the wrap: the quotient plus one for a remainder,
   * which stays below 2^64 for every uint64_t max_chunk_size.
   */
  function CorrectedWindows(max: u64): (w: nat)
    ensures w < Two64
  {
    ModUnique(max, BufferSize, max / BufferSize, max % BufferSize);
    max / BufferSize + (if max % BufferSize != 0 then 1 else 0)
  }

  /** The corrected count is what the sender sends, for every max_chunk_size. */
  lemma CorrectedWindowsAgree(max: u64)
    ensures CorrectedWindows(max) == SenderWindows(max)
  {
    var q, r := max / BufferSize, max % BufferSize;
    ModUnique(max, BufferSize, q, r);
    if max == 0 {
    } else if max < BufferSize {
      ModUnique(max + max - 1, max, 1, max - 1);
    } else if r == 0 {
      ModUnique(max + BufferSize - 1, BufferSize, q, BufferSize - 1);
    } else {
      ModUnique(max + BufferSize - 1, BufferSize, q + 1, r - 1);
    }
  }

  /**
   * A counter that adds only what is left, MIN(bs, max - read_from_fd):
   * it never passes max_chunk_size, so it never wraps, and the loop test
   * read_from_fd < max holds for exactly the first ceil(max / bs)
   * iterations, for every max.
   */
  function ClampedCounter(max: u64, bs: nat, k: nat): (c: u64)
    ensures c <= max
  {
    if k == 0 then 0 else
      var c := ClampedCounter(max, bs, k - 1);
      c + Bitmask.Min(bs, max - c)
  }

  /** After k iterations the clamped counter is k windows, or max once they reach it. */
  lemma {:induction false} ClampedCounterValue(max: u64, bs: nat, k: nat)
    ensures ClampedCounter(max, bs, k) == Bitmask.Min(k * bs, max)
  {
    if k > 0 {
      ClampedCounterValue(max, bs, k - 1);
      var prev := (k - 1) * bs;
      assert k * bs == prev + bs;
      var c := ClampedCounter(max, bs, k - 1);
      if prev >= max {
        assert c == max;
      } else {
        assert c == prev;
      }
    }
  }

  /** The loop test on the clamped counter holds for exactly ceil(max / bs) iterations. */
  lemma ClampedCounterRuns(max: u64, bs: nat, k: nat)
    requires bs > 0
    ensures ClampedCounter(max, bs, k) < max <==> k < Ceil(max, bs)
  {
    ClampedCounterValue(max, bs, k);
    CeilIsLeast(max, bs, k);
  }
}
