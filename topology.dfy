/**
 * The rank topology of bp-parity-gen/main.c. Rank 0 coordinates; odd ranks
 * are collectors ("eaters") and even ranks > 0 are scanners ("feeders"),
 * rank 2k+1 and 2k+2 serving the same storage target. Every rank but 0
 * reports (targetID << 32) | rank; the coordinator keeps the collectors'
 * words, sorts them and numbers storage targets in that order.
 */
module Topology {

  import opened Bytes
  import Sender

  const Two32: int := 0x1_0000_0000

  /** MAX_STORAGE_TARGETS from common/common.h. */
  const MaxStorageTargets: nat := 56

  /** The word a rank reports: its target ID (as read, kept to 32 bits by the shift) above its rank. */
  function IdWord(tid: nat, rank: nat): (w: u64)
    requires rank < Two32
    ensures w % Two32 == rank
    ensures w / Two32 == tid % Two32
  {
    LowHigh(tid % Two32, rank);
    (tid % Two32) * Two32 + rank
  }

  lemma LowHigh(hi: nat, lo: nat)
    requires hi < Two32 && lo < Two32
    ensures hi * Two32 + lo < Two64
    ensures (hi * Two32 + lo) % Two32 == lo && (hi * Two32 + lo) / Two32 == hi
  {
    assert hi * Two32 <= (Two32 - 1) * Two32;
  }

  /** What the gather leaves at index r: rank 0 contributes 0. */
  function GatheredWord(tids: seq<nat>, r: nat): u64
    requires r < |tids| && r < Two32
  {
    if r == 0 then 0 else IdWord(tids[r], r)
  }

  /** Gathered words i and i+1 carry the same target ID in their upper half. */
  predicate PairMatches(tids: seq<nat>, i: nat)
    requires i + 1 < |tids| && i + 1 < Two32
  {
    GatheredWord(tids, i) / Two32 == GatheredWord(tids, i + 1) / Two32
  }

  /** The pairs (2k + start, 2k + start + 1) for k below ntargets all match. */
  predicate PairsMatch(tids: seq<nat>, ntargets: nat, start: nat)
    requires start <= 1 && 2 * ntargets + 1 <= |tids| && 2 * ntargets < Two32
  {
    forall k :: 0 <= k < ntargets ==> PairMatches(tids, 2 * k + start)
  }

  /** The identity check at main.c:298-299 as written: gathered words 2k and 2k+1. */
  predicate PairsAgree(tids: seq<nat>, ntargets: nat)
    requires 2 * ntargets + 1 <= |tids| && 2 * ntargets < Two32
  {
    PairsMatch(tids, ntargets, 0)
  }

  /** One pair of a passing check. */
  lemma PairAt(tids: seq<nat>, ntargets: nat, start: nat, k: nat)
    requires start <= 1 && 2 * ntargets + 1 <= |tids| && 2 * ntargets < Two32
    requires PairsMatch(tids, ntargets, start) && k < ntargets
    ensures PairMatches(tids, 2 * k + start)
  {
  }

  /** How the ranks are deployed: collector 2k+1 and scanner 2k+2 read the same targetID file. */
  predicate SharedTargets(tids: seq<nat>, ntargets: nat)
    requires 2 * ntargets + 1 <= |tids|
  {
    forall k :: 0 <= k < ntargets ==> tids[2 * k + 1] % Two32 == tids[2 * k + 2] % Two32
  }

  /**
   * Rank 0 gathers the word 0, so the check as written passes only when
   * the first collector's target ID is 0 modulo 2^32.
   */
  lemma PairsForceZero(tids: seq<nat>, ntargets: nat)
    requires 2 * ntargets + 1 <= |tids| && 2 * ntargets < Two32
    requires PairsAgree(tids, ntargets) && ntargets > 0
    ensures tids[1] % Two32 == 0
  {
    PairAt(tids, ntargets, 0, 0);
  }

  /**
   * With every collector beside its own scanner, the check as written
   * passes only when every collector's target ID is 0 modulo 2^32.
   */
  lemma {:induction false} PairsForceAllZero(tids: seq<nat>, ntargets: nat, k: nat)
    requires 2 * ntargets + 1 <= |tids| && 2 * ntargets < Two32
    requires PairsAgree(tids, ntargets) && SharedTargets(tids, ntargets) && k < ntargets
    ensures tids[2 * k + 1] % Two32 == 0
  {
    if k == 0 {
      PairsForceZero(tids, ntargets);
    } else {
      PairsForceAllZero(tids, ntargets, k - 1);
      assert tids[2 * (k - 1) + 1] % Two32 == tids[2 * k] % Two32;
      PairAt(tids, ntargets, 0, k);
    }
  }

  /** The check over words (2k+1, 2k+2) passes exactly on the deployments where each pair shares a target. */
  lemma CorrectedPairsAccept(tids: seq<nat>, ntargets: nat)
    requires 2 * ntargets + 1 <= |tids| && 2 * ntargets < Two32
    ensures PairsMatch(tids, ntargets, 1) <==> SharedTargets(tids, ntargets)
  {
    forall k | 0 <= k < ntargets
      ensures PairMatches(tids, 2 * k + 1) <==> tids[2 * k + 1] % Two32 == tids[2 * k + 2] % Two32
    {
      assert 2 * k + 2 == (2 * k + 1) + 1;
    }
  }

  /** The collectors' words, in rank order. */
  function EaterWords(tids: seq<nat>, ntargets: nat): (e: seq<int>)
    requires 2 * ntargets + 1 <= |tids| && 2 * ntargets < Two32
    ensures |e| == ntargets
  {
    seq(ntargets, k requires 0 <= k < ntargets => GatheredWord(tids, 2 * k + 1))
  }

  predicate Sorted(s: seq<int>)
  {
    forall i, j :: 0 <= i < j < |s| ==> s[i] <= s[j]
  }

  function Insert(x: int, s: seq<int>): (r: seq<int>)
    ensures multiset(r) == multiset(s) + multiset{x}
    ensures |r| == |s| + 1
  {
    if s == [] || x <= s[0] then [x] + s
    else
      assert s == [s[0]] + s[1..];
      [s[0]] + Insert(x, s[1..])
  }

  lemma {:induction false} InsertSorted(x: int, s: seq<int>)
    requires Sorted(s)
    ensures Sorted(Insert(x, s))
    ensures Insert(x, s)[0] == if s == [] || x <= s[0] then x else s[0]
  {
    if s != [] && x > s[0] {
      var t := Insert(x, s[1..]);
      assert Sorted(s[1..]);
      InsertSorted(x, s[1..]);
      assert t[0] >= s[0] by {
        if |s| > 1 {
          assert s[1..][0] == s[1];
        }
      }
      var r := [s[0]] + t;
      forall i, j | 0 <= i < j < |r| ensures r[i] <= r[j] {
        if i == 0 {
          assert r[j] == t[j - 1];
          assert t[0] <= t[j - 1];
        } else {
          assert r[i] == t[i - 1] && r[j] == t[j - 1];
        }
      }
    }
  }

  /** The ascending order qsort with uint64_cmp produces. */
  function Sort(s: seq<int>): (r: seq<int>)
    ensures multiset(r) == multiset(s) && |r| == |s|
    ensures Sorted(r)
  {
    if s == [] then []
    else
      assert s == [s[0]] + s[1..];
      InsertSorted(s[0], Sort(s[1..]));
      Insert(s[0], Sort(s[1..]))
  }

  /** Word k carries rank 2k+1 in its low bits, as the collectors' words in rank order do. */
  predicate RankedWords(w: seq<int>)
  {
    forall k :: 0 <= k < |w| ==> w[k] % Two32 == 2 * k + 1
  }

  lemma EaterWordsRanked(tids: seq<nat>, ntargets: nat)
    requires 2 * ntargets + 1 <= |tids| && 2 * ntargets < Two32
    ensures RankedWords(EaterWords(tids, ntargets))
  {
  }

  /** The low 32 bits of each word: the rank. */
  function Ranks(s: seq<int>): (r: seq<int>)
    ensures |r| == |s|
  {
    seq(|s|, i requires 0 <= i < |s| => s[i] % Two32)
  }

  /** st2rank as the specification orders it: the rank of the i-th smallest collector word. */
  function StRank(tids: seq<nat>, ntargets: nat): (s: seq<int>)
    requires 2 * ntargets + 1 <= |tids| && 2 * ntargets < Two32
    ensures |s| == ntargets
  {
    Ranks(Sort(EaterWords(tids, ntargets)))
  }

  /** An element of a permutation is found in the original. */
  lemma FindIn(e: seq<int>, s: seq<int>, i: nat) returns (k: nat)
    requires multiset(s) == multiset(e) && i < |s|
    ensures k < |e| && e[k] == s[i]
  {
    assert s[i] in multiset(s);
    k :| 0 <= k < |e| && e[k] == s[i];
  }

  /** A permutation of ranked words: each word is collector k's and carries rank 2k+1. */
  lemma PermRank(w: seq<int>, s: seq<int>, i: nat) returns (k: nat)
    requires RankedWords(w) && multiset(s) == multiset(w) && i < |s|
    ensures k < |w| && s[i] == w[k] && s[i] % Two32 == 2 * k + 1
  {
    k := FindIn(w, s, i);
  }

  lemma {:induction false} CountTwo(r: seq<int>, i: nat, j: nat)
    requires i < j < |r| && r[i] == r[j]
    ensures multiset(r)[r[i]] >= 2
  {
    assert r == r[..j] + [r[j]] + r[j + 1..];
    assert r[..j][i] == r[i];
    assert r[i] in multiset(r[..j]);
  }

  lemma {:induction false} CountOne(s: seq<int>, x: int)
    requires forall i, j :: 0 <= i < j < |s| ==> s[i] != s[j]
    ensures multiset(s)[x] <= 1
  {
    if s != [] {
      assert s == [s[0]] + s[1..];
      CountOne(s[1..], x);
      if s[0] == x {
        assert x !in s[1..];
      }
    }
  }

  /** Distinct positions of a permutation of ranked words carry distinct ranks. */
  lemma PermRanksDistinct(w: seq<int>, s: seq<int>, i: nat, j: nat)
    requires RankedWords(w) && multiset(s) == multiset(w) && i < j < |s|
    ensures s[i] % Two32 != s[j] % Two32
  {
    var ki := PermRank(w, s, i);
    var kj := PermRank(w, s, j);
    if ki == kj {
      CountTwo(s, i, j);
      CountOne(w, s[i]);
    }
  }

  /** Ranks that are odd, below 2T and pairwise distinct. */
  predicate OddDistinct(st: seq<int>, ntargets: nat)
  {
    (forall k :: 0 <= k < |st| ==> 0 < st[k] < 2 * ntargets && st[k] % 2 == 1) &&
    (forall a, b :: 0 <= a < b < |st| ==> st[a] != st[b])
  }

  /** st2rank is injective and maps into odd (collector) ranks 1 .. 2T-1. */
  lemma StRankInjective(tids: seq<nat>, ntargets: nat)
    requires 2 * ntargets + 1 <= |tids| && 2 * ntargets < Two32
    ensures OddDistinct(StRank(tids, ntargets), ntargets)
  {
    var w := EaterWords(tids, ntargets);
    var s := Sort(w);
    EaterWordsRanked(tids, ntargets);
    forall i | 0 <= i < ntargets
      ensures 0 < s[i] % Two32 < 2 * ntargets && s[i] % Two32 % 2 == 1
    {
      var k := PermRank(w, s, i);
    }
    forall i, j | 0 <= i < j < ntargets
      ensures s[i] % Two32 != s[j] % Two32
    {
      PermRanksDistinct(w, s, i, j);
    }
  }

  /** Every collector rank is some storage target's rank. */
  lemma StRankCoversEaters(tids: seq<nat>, ntargets: nat, k: nat) returns (i: nat)
    requires 2 * ntargets + 1 <= |tids| && 2 * ntargets < Two32
    requires k < ntargets
    ensures i < ntargets && StRank(tids, ntargets)[i] == 2 * k + 1
  {
    var w := EaterWords(tids, ntargets);
    i := FindIn(Sort(w), w, k);
    EaterWordsRanked(tids, ntargets);
  }

  /** Storage targets are numbered in increasing target-ID order. */
  lemma StRankFollowsTargetIds(tids: seq<nat>, ntargets: nat, i: nat, j: nat)
    requires 2 * ntargets + 1 <= |tids| && 2 * ntargets < Two32
    requires i < j < ntargets
    ensures var st := StRank(tids, ntargets);
      st[i] < |tids| && st[j] < |tids| && tids[st[i]] % Two32 <= tids[st[j]] % Two32
  {
    var w := EaterWords(tids, ntargets);
    var s := Sort(w);
    EaterWordsRanked(tids, ntargets);
    var ki := PermRank(w, s, i);
    var kj := PermRank(w, s, j);
    assert s[i] <= s[j];
    DivMonotone(s[i], s[j]);
  }

  lemma DivMonotone(a: nat, b: nat)
    requires a <= b
    ensures a / Two32 <= b / Two32
  {
  }

  /** The tables the coordinator fills from the ranks st of the storage targets, in target order. */
  predicate Tables(st2rank: seq<int>, rank2st: seq<int>, st: seq<int>, ntargets: nat)
  {
    |st| == ntargets &&
    |st2rank| == MaxStorageTargets && |rank2st| == 2 * MaxStorageTargets + 1 &&
    ntargets <= MaxStorageTargets &&
    (forall i :: 0 <= i < ntargets ==> st2rank[i] == st[i]) &&
    (forall i :: ntargets <= i < MaxStorageTargets ==> st2rank[i] == 0) &&
    rank2st[0] == -1 &&
    (forall i :: 0 <= i < ntargets ==>
      0 < st2rank[i] < 2 * MaxStorageTargets && rank2st[st2rank[i]] == i && rank2st[st2rank[i] + 1] == i) &&
    (forall r :: 2 * ntargets < r < |rank2st| ==> rank2st[r] == 0)
  }

  /**
   * The assert loop of main.c:298-299, starting at word start and stepping
   * by two; a mismatch aborts the program, reported here as false.
   */
  method CheckPairs(tids: seq<nat>, ntargets: nat, start: nat) returns (ok: bool)
    requires start <= 1 && |tids| == 2 * ntargets + 1 && 2 * ntargets < Two32
    ensures ok <==> PairsMatch(tids, ntargets, start)
  {
    var i := start;
    while i < 2 * ntargets
      invariant start <= i <= 2 * ntargets + start && (i - start) % 2 == 0
      invariant forall k :: 0 <= k && 2 * k + start < i ==> PairMatches(tids, 2 * k + start)
    {
      if GatheredWord(tids, i) / Two32 != GatheredWord(tids, i + 1) / Two32 {
        assert PairMatches(tids, 2 * ((i - start) / 2) + start) == false;
        return false;
      }
      i := i + 2;
    }
    return true;
  }

  /**
   * The coordinator's part of main.c:280-310: gather, identity check as
   * written, compaction of the collectors' words, sort, tables.
   */
  method Resolve(tids: seq<nat>, ntargets: nat) returns (ok: bool, st2rank: seq<int>, rank2st: seq<int>)
    requires 2 * ntargets + 1 <= 2 * Sender.MaxTargets
    requires |tids| == 2 * ntargets + 1
    ensures ok <==> PairsAgree(tids, ntargets)
    ensures ok ==> Tables(st2rank, rank2st, StRank(tids, ntargets), ntargets)
    ensures !ok ==> st2rank == [] && rank2st == []
  {
    ok := CheckPairs(tids, ntargets, 0);
    if !ok {
      return false, [], [];
    }
    st2rank, rank2st := BuildTables(tids, ntargets);
  }

  /** Resolve with the identity check over each collector and the scanner beside it. */
  method ResolveCorrected(tids: seq<nat>, ntargets: nat) returns (ok: bool, st2rank: seq<int>, rank2st: seq<int>)
    requires 2 * ntargets + 1 <= 2 * Sender.MaxTargets
    requires |tids| == 2 * ntargets + 1
    ensures ok <==> SharedTargets(tids, ntargets)
    ensures ok ==> Tables(st2rank, rank2st, StRank(tids, ntargets), ntargets)
    ensures !ok ==> st2rank == [] && rank2st == []
  {
    ok := CheckPairs(tids, ntargets, 1);
    CorrectedPairsAccept(tids, ntargets);
    if !ok {
      return false, [], [];
    }
    st2rank, rank2st := BuildTables(tids, ntargets);
  }

  /** main.c:300-309: compaction of the collectors' words, sort, tables. */
  method BuildTables(tids: seq<nat>, ntargets: nat) returns (st2rank: seq<int>, rank2st: seq<int>)
    requires 2 * ntargets + 1 <= 2 * Sender.MaxTargets
    requires |tids| == 2 * ntargets + 1
    ensures Tables(st2rank, rank2st, StRank(tids, ntargets), ntargets)
  {
    var ids := new int[2 * Sender.MaxTargets](_ => 0);
    forall r | 0 <= r <= 2 * ntargets {
      ids[r] := GatheredWord(tids, r);
    }
    KeepEaterWords(ids, tids, ntargets);
    var sorted := Sort(ids[..ntargets]);
    forall k | 0 <= k < ntargets {
      ids[k] := sorted[k];
    }
    st2rank, rank2st := FillTables(ids, tids, ntargets);
  }

  /** main.c:300-301: word 2i+1 moves down to index i. */
  method KeepEaterWords(ids: array<int>, tids: seq<nat>, ntargets: nat)
    requires |tids| == 2 * ntargets + 1 && 2 * ntargets + 1 <= ids.Length && 2 * ntargets < Two32
    requires forall r :: 0 <= r <= 2 * ntargets ==> ids[r] == GatheredWord(tids, r)
    modifies ids
    ensures ids[..ntargets] == EaterWords(tids, ntargets)
  {
    var i := 0;
    while i < ntargets
      invariant i <= ntargets
      invariant forall k :: 0 <= k < i ==> ids[k] == GatheredWord(tids, 2 * k + 1)
      invariant forall k :: i <= k <= 2 * ntargets ==> ids[k] == GatheredWord(tids, k)
    {
      ids[i] := ids[2 * i + 1];
      i := i + 1;
    }
  }

  /** main.c:303-309: st2rank from the low bits of the sorted words, rank2st its inverse. */
  method FillTables(ids: array<int>, tids: seq<nat>, ntargets: nat) returns (st2rank: seq<int>, rank2st: seq<int>)
    requires |tids| == 2 * ntargets + 1 && ntargets <= ids.Length && ntargets <= Sender.MaxTargets
    requires ids[..ntargets] == Sort(EaterWords(tids, ntargets))
    ensures Tables(st2rank, rank2st, StRank(tids, ntargets), ntargets)
  {
    ghost var st := StRank(tids, ntargets);
    StRankInjective(tids, ntargets);
    assert forall k :: 0 <= k < ntargets ==> ids[k] % Two32 == st[k] by {
      forall k | 0 <= k < ntargets ensures ids[k] % Two32 == st[k] {
        assert ids[k] == ids[..ntargets][k];
      }
    }
    st2rank, rank2st := FillLoop(ids, st, ntargets);
  }

  /** The loop of main.c:304-309 over the ranks it extracts. */
  method FillLoop(ids: array<int>, ghost st: seq<int>, ntargets: nat) returns (st2rank: seq<int>, rank2st: seq<int>)
    requires |st| == ntargets <= ids.Length && ntargets <= Sender.MaxTargets
    requires OddDistinct(st, ntargets)
    requires forall k :: 0 <= k < ntargets ==> ids[k] % Two32 == st[k]
    ensures |st2rank| == MaxStorageTargets && |rank2st| == 2 * MaxStorageTargets + 1
    ensures forall i :: 0 <= i < ntargets ==> st2rank[i] == st[i]
    ensures forall i :: ntargets <= i < MaxStorageTargets ==> st2rank[i] == 0
    ensures rank2st[0] == -1
    ensures forall i :: 0 <= i < ntargets ==> rank2st[st[i]] == i && rank2st[st[i] + 1] == i
    ensures forall r :: 2 * ntargets < r < |rank2st| ==> rank2st[r] == 0
  {
    var s2r := new int[MaxStorageTargets](_ => 0);
    var r2s := new int[2 * MaxStorageTargets + 1](_ => 0);
    r2s[0] := -1;
    var i := 0;
    while i < ntargets
      invariant i <= ntargets
      invariant forall k :: 0 <= k < i ==> s2r[k] == st[k]
      invariant forall k :: i <= k < MaxStorageTargets ==> s2r[k] == 0
      invariant r2s[0] == -1
      invariant forall k :: 0 <= k < i ==> r2s[st[k]] == k && r2s[st[k] + 1] == k
      invariant forall r :: 2 * ntargets < r < r2s.Length ==> r2s[r] == 0
    {
      var rank := ids[i] % Two32;
      OddApart(st, ntargets, i);
      s2r[i] := rank;
      r2s[rank] := i;
      r2s[rank + 1] := i;
      i := i + 1;
    }
    st2rank, rank2st := s2r[..], r2s[..];
  }

  /** Two distinct odd ranks and their even neighbours are four different slots of rank2st. */
  lemma OddApart(st: seq<int>, ntargets: nat, i: nat)
    requires OddDistinct(st, ntargets) && i < |st|
    ensures forall k :: 0 <= k < i ==> st[k] != st[i] && st[k] + 1 != st[i] && st[k] != st[i] + 1
  {
  }

  /** eater_rank_from_st. */
  function EaterRankFromSt(st2rank: seq<int>, st: nat): int
    requires st < |st2rank|
  {
    st2rank[st]
  }

  /** st_from_feeder_rank: its assert on the rank is a precondition. */
  function StFromFeederRank(rank2st: seq<int>, feeder: nat): int
    requires 0 < feeder < |rank2st| && feeder % 2 == 0
  {
    rank2st[feeder]
  }

  /**
   * The two lookups are inverse, first way round: the scanner next to a
   * target's collector (rank + 1) maps back to that target.
   */
  lemma EaterThenFeeder(st2rank: seq<int>, rank2st: seq<int>, ranks: seq<int>, ntargets: nat, st: nat)
    requires OddDistinct(ranks, ntargets) && Tables(st2rank, rank2st, ranks, ntargets) && st < ntargets
    ensures 0 < EaterRankFromSt(st2rank, st) && EaterRankFromSt(st2rank, st) % 2 == 1
    ensures StFromFeederRank(rank2st, EaterRankFromSt(st2rank, st) + 1) == st
  {
    assert st2rank[st] == ranks[st];
  }

  /**
   * The other way round: every scanner rank 2k+2 maps to the target whose
   * collector is 2k+1.
   */
  lemma FeederThenEater(st2rank: seq<int>, rank2st: seq<int>, tids: seq<nat>, ntargets: nat, k: nat)
    requires 2 * ntargets + 1 <= |tids| && 2 * ntargets < Two32
    requires Tables(st2rank, rank2st, StRank(tids, ntargets), ntargets) && k < ntargets
    ensures var st := StFromFeederRank(rank2st, 2 * k + 2);
      0 <= st < ntargets && EaterRankFromSt(st2rank, st) == 2 * k + 1
  {
    var i := StRankCoversEaters(tids, ntargets, k);
    assert st2rank[i] == 2 * k + 1;
    assert rank2st[2 * k + 2] == i;
  }
}
