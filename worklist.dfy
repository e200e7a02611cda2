/**
 * The worklist of bp-parity-gen/main.c, once every collector has its
 * records. The owner of a target walks its name arena, completes each
 * record (merge with the persisted one, choose a parity owner when there is
 * none) and stores it back; the records and the raw arena bytes are then
 * broadcast, and every rank walks the names again, keeping the records of
 * the tasks it took part in. The persistent database and the accumulation
 * map are plain maps here; the broadcast is the identity.
 */
module Worklist {

  import opened Bytes
  import opened Bitmask
  import Hashing
  import Placement
  import Collector

  type Key = seq<byte>

  /** Bytes that end with a NUL (or are empty), so strlen never runs past them. */
  predicate Terminated(b: seq<byte>)
  {
    |b| == 0 || b[|b| - 1] == 0
  }

  /** strlen from offset s: the index of the next NUL. */
  function NulFrom(b: seq<byte>, s: nat): (e: nat)
    requires s <= |b|
    ensures s <= e <= |b| && (e < |b| ==> b[e] == 0)
    ensures forall j :: s <= j < e ==> b[j] != 0
    decreases |b| - s
  {
    if s == |b| || b[s] == 0 then s else NulFrom(b, s + 1)
  }

  /** The names the build loop visits from offset s: it stops at the end or at an empty name. */
  function Split(b: seq<byte>, s: nat): seq<Key>
    requires s <= |b| && Terminated(b)
    decreases |b| - s
  {
    if s == |b| || b[s] == 0 then []
    else
      var e := NulFrom(b, s);
      [b[s..e]] + Split(b, e + 1)
  }

  predicate NulFree(n: Key)
  {
    forall j :: 0 <= j < |n| ==> n[j] != 0
  }

  /** The number of names before the first empty one. */
  function Leading(names: seq<Key>): (k: nat)
    ensures k <= |names| && forall j :: 0 <= j < k ==> names[j] != []
    ensures k < |names| ==> names[k] == []
  {
    if names == [] || names[0] == [] then 0 else 1 + Leading(names[1..])
  }

  lemma JoinTerminated(names: seq<Key>)
    ensures Terminated(Collector.Join(names))
  {
    if names != [] {
      JoinTerminated(names[1..]);
    }
  }

  /** The names lie in b from offset s on, each followed by a NUL, filling b to its end. */
  predicate Laid(b: seq<byte>, s: nat, names: seq<Key>)
    decreases |names|
  {
    s <= |b| && (names == [] ==> s == |b|) &&
    (names != [] ==>
      var e := s + |names[0]|;
      e < |b| && b[s..e] == names[0] && b[e] == 0 && Laid(b, e + 1, names[1..]))
  }

  /** A joined arena lays out its names in order after any prefix. */
  lemma {:induction false} JoinLaid(p: seq<byte>, names: seq<Key>)
    ensures Laid(p + Collector.Join(names), |p|, names)
    decreases |names|
  {
    if names == [] {
      assert p + Collector.Join(names) == p;
    } else {
      var n := names[0];
      var p' := p + n + [0];
      var rest := Collector.Join(names[1..]);
      assert Collector.Join(names) == n + [0] + rest;
      assert p + Collector.Join(names) == p' + rest;
      JoinLaid(p', names[1..]);
      assert (p' + rest)[|p|..|p| + |n|] == n;
    }
  }

  /**
   * Walking laid-out names gives them back, up to the first empty one: a
   * name of length 0 ends the walk, and the names after it are never
   * visited.
   */
  lemma {:induction false} SplitLaid(b: seq<byte>, s: nat, names: seq<Key>)
    requires Terminated(b) && Laid(b, s, names)
    requires forall j :: 0 <= j < |names| ==> NulFree(names[j])
    ensures Split(b, s) == names[..Leading(names)]
    decreases |names|
  {
    if names == [] || names[0] == [] {
      SplitStops(b, s);
    } else {
      var n := names[0];
      var rest := names[1..];
      forall j | 0 <= j < |rest|
        ensures NulFree(rest[j])
      {
        assert rest[j] == names[j + 1];
      }
      SplitLaid(b, s + |n| + 1, rest);
      SplitFront(b, s, n);
      LeadingFront(names);
    }
  }

  /** The walk visits nothing at the end of the bytes or at an empty name. */
  lemma SplitStops(b: seq<byte>, s: nat)
    requires Terminated(b) && s <= |b| && (s == |b| || b[s] == 0)
    ensures Split(b, s) == []
  {
  }

  lemma LeadingFront(names: seq<Key>)
    requires names != [] && names[0] != []
    ensures names[..Leading(names)] == [names[0]] + names[1..][..Leading(names[1..])]
  {
  }

  /** A non-empty NUL-free name followed by a NUL at offset s is the first name visited from s. */
  lemma SplitFront(b: seq<byte>, s: nat, n: Key)
    requires Terminated(b) && n != [] && NulFree(n)
    requires s + |n| < |b| && b[s..s + |n|] == n && b[s + |n|] == 0
    ensures Split(b, s) == [n] + Split(b, s + |n| + 1)
  {
    assert b[s] == n[0];
    forall j | s <= j < s + |n|
      ensures b[j] != 0
    {
      assert b[j] == n[j - s];
    }
    NulAt(b, s, s + |n|);
  }

  /** One step of either walk: the name at s runs to the next NUL. */
  lemma SplitStep(b: seq<byte>, s: nat, len: nat)
    requires Terminated(b) && s < |b| && b[s] != 0 && len == NulFrom(b, s) - s
    ensures s + len < |b| && Split(b, s) == [b[s..s + len]] + Split(b, s + len + 1)
  {
  }

  lemma NulAt(b: seq<byte>, s: nat, e: nat)
    requires s <= e < |b| && b[e] == 0 && forall j :: s <= j < e ==> b[j] != 0
    ensures NulFrom(b, s) == e
    decreases e - s
  {
    if s < e {
      NulAt(b, s + 1, e);
    }
  }

  /**
   * The walk over a collector's arena gives back its names up to the first
   * empty one, and all of them when none is empty.
   */
  lemma SplitJoin(names: seq<Key>)
    requires forall j :: 0 <= j < |names| ==> NulFree(names[j])
    ensures Terminated(Collector.Join(names))
    ensures Split(Collector.Join(names), 0) == names[..Leading(names)]
    ensures (forall j :: 0 <= j < |names| ==> names[j] != []) ==> Split(Collector.Join(names), 0) == names
  {
    var b := Collector.Join(names);
    JoinTerminated(names);
    JoinLaid([], names);
    assert [] + b == b;
    SplitLaid(b, 0, names);
    if forall j :: 0 <= j < |names| ==> names[j] != [] {
      assert names[..|names|] == names;
    }
  }

  /** A record as the build loop leaves it: merged with its persisted version, then given an owner. */
  function Prepare(name: Key, g: FileInfo, pdb: map<Key, FileInfo>, ntargets: nat, fuel: nat): FileInfo
    requires 0 < ntargets < Hashing.Two32
  {
    var fi := if name in pdb then Placement.FillInMissingFields(g, pdb[name]) else g;
    if GetP(fi.locations) == NoP then Placement.Placed(fi, name, ntargets, fuel) else fi
  }

  /**
   * A prepared record keeps an owner it already had; a record without one
   * gets a free target below ntargets, or stays ownerless when every
   * target is in use or the re-hashing ran out.
   */
  lemma PrepareOwner(name: Key, g: FileInfo, pdb: map<Key, FileInfo>, ntargets: nat, fuel: nat)
    requires 0 < ntargets <= MaxStorageTargets
    ensures var fi := if name in pdb then Placement.FillInMissingFields(g, pdb[name]) else g;
      var r := Prepare(name, g, pdb, ntargets, fuel);
      (GetP(fi.locations) != NoP ==> r == fi) &&
      (GetP(fi.locations) == NoP ==>
        r == fi ||
        (GetP(r.locations) < ntargets && !TestBit(fi.locations, GetP(r.locations)) &&
         forall i :: 0 <= i < MaxStorageTargets ==> (TestBit(r.locations, i) <==> TestBit(fi.locations, i))))
  {
    var fi := if name in pdb then Placement.FillInMissingFields(g, pdb[name]) else g;
    Placement.PlacedOwner(fi, name, ntargets, fuel);
  }

  /** The records built for names, in order, and the database after storing each one. */
  function Build(names: seq<Key>, gathered: map<Key, FileInfo>, pdb: map<Key, FileInfo>, ntargets: nat, fuel: nat)
    : (r: (seq<FileInfo>, map<Key, FileInfo>))
    requires 0 < ntargets < Hashing.Two32
    requires forall j :: 0 <= j < |names| ==> names[j] in gathered
    ensures |r.0| == |names|
  {
    if names == [] then ([], pdb)
    else
      var (infos, p) := Build(names[..|names| - 1], gathered, pdb, ntargets, fuel);
      var name := names[|names| - 1];
      var fi := Prepare(name, gathered[name], p, ntargets, fuel);
      (infos + [fi], p[name := fi])
  }

  /**
   * After the build the database holds every name, with the record built
   * for it when names are distinct, and nothing else changed.
   */
  lemma {:induction false} BuildStoresAll(names: seq<Key>, gathered: map<Key, FileInfo>, pdb: map<Key, FileInfo>, ntargets: nat, fuel: nat)
    requires 0 < ntargets < Hashing.Two32
    requires forall j :: 0 <= j < |names| ==> names[j] in gathered
    requires forall i, j :: 0 <= i < j < |names| ==> names[i] != names[j]
    ensures var (infos, p) := Build(names, gathered, pdb, ntargets, fuel);
      (forall k :: k in p <==> k in pdb || k in names) &&
      (forall j :: 0 <= j < |names| ==> p[names[j]] == infos[j]) &&
      (forall k :: k in pdb && k !in names ==> p[k] == pdb[k])
  {
    if names != [] {
      var n := |names| - 1;
      var init := names[..n];
      BuildStoresAll(init, gathered, pdb, ntargets, fuel);
      var (infos, p) := Build(names, gathered, pdb, ntargets, fuel);
      assert names == init + [names[n]];
      forall j | 0 <= j < n
        ensures p[names[j]] == infos[j]
      {
        assert names[j] == init[j] && names[j] != names[n];
      }
    }
  }

  /** strlen(s) as its loop. */
  method StrLen(b: seq<byte>, s: nat) returns (len: nat)
    requires s < |b| && Terminated(b)
    ensures len == NulFrom(b, s) - s
  {
    len := 0;
    while b[s + len] != 0
      invariant s + len < |b| && NulFrom(b, s + len) == NulFrom(b, s)
      decreases |b| - s - len
    {
      len := len + 1;
    }
  }

  /** The next name of either walk and the offset after its NUL. */
  method NextName(b: seq<byte>, s: nat, ghost names: seq<Key>, ghost done: seq<Key>) returns (name: Key, next: nat)
    requires Terminated(b) && s <= |b| && names == done + Split(b, s) && |done| < |names|
    ensures s < next <= |b| && |done| < |names| && name == names[|done|]
    ensures names == (done + [name]) + Split(b, next)
  {
    var len := StrLen(b, s);
    SplitStep(b, s, len);
    name := b[s..s + len];
    next := s + len + 1;
  }

  /** One item of the build loop: fih_get, the merge with pdb_get's record, select_P. */
  method PrepareItem(name: Key, g: FileInfo, pdb: map<Key, FileInfo>, ntargets: nat, fuel: nat)
    returns (fi: FileInfo)
    requires 0 < ntargets < Hashing.Two32
    ensures fi == Prepare(name, g, pdb, ntargets, fuel)
  {
    fi := g;
    if name in pdb {
      fi := Placement.FillInMissingFields(fi, pdb[name]);
    }
    if GetP(fi.locations) == NoP {
      var exited, rounds;
      fi, exited, rounds := Placement.SelectP(name, fi, ntargets, fuel);
    }
  }

  /** Build on one more name: the record is prepared against the database built so far. */
  lemma BuildSnoc(names: seq<Key>, name: Key, gathered: map<Key, FileInfo>, pdb: map<Key, FileInfo>, ntargets: nat, fuel: nat)
    requires 0 < ntargets < Hashing.Two32
    requires forall j :: 0 <= j < |names| ==> names[j] in gathered
    requires name in gathered
    ensures forall j :: 0 <= j < |names + [name]| ==> (names + [name])[j] in gathered
    ensures var (infos, p) := Build(names, gathered, pdb, ntargets, fuel);
      var fi := Prepare(name, gathered[name], p, ntargets, fuel);
      Build(names + [name], gathered, pdb, ntargets, fuel) == (infos + [fi], p[name := fi])
  {
    assert (names + [name])[..|names|] == names;
  }

  /** One item of the build loop: the next name, its record, and the database with it stored. */
  method BuildNext(flat: seq<byte>, s: nat, gathered: map<Key, FileInfo>, pdb: map<Key, FileInfo>, ntargets: nat, fuel: nat,
                   infos: seq<FileInfo>, p: map<Key, FileInfo>, ghost names: seq<Key>, ghost done: seq<Key>)
    returns (next: nat, infos': seq<FileInfo>, p': map<Key, FileInfo>, ghost done': seq<Key>)
    requires Terminated(flat) && 0 < ntargets < Hashing.Two32
    requires forall j :: 0 <= j < |names| ==> names[j] in gathered
    requires s < |flat| && flat[s] != 0 && names == done + Split(flat, s)
    requires forall j :: 0 <= j < |done| ==> done[j] in gathered
    requires (infos, p) == Build(done, gathered, pdb, ntargets, fuel)
    ensures s < next <= |flat| && names == done' + Split(flat, next) && |done'| == |done| + 1
    ensures forall j :: 0 <= j < |done'| ==> done'[j] in gathered
    ensures (infos', p') == Build(done', gathered, pdb, ntargets, fuel)
  {
    assert Split(flat, s) != [];
    var name;
    name, next := NextName(flat, s, names, done);
    assert name in gathered;
    var fi := PrepareItem(name, gathered[name], p, ntargets, fuel);
    BuildSnoc(done, name, gathered, pdb, ntargets, fuel);
    infos', p' := infos + [fi], p[name := fi];
    done' := done + [name];
  }

  /**
   * The build loop run by the owner of a worklist: walk the arena while
   * there are bytes and the next name is not empty, build and store each
   * record, then copy the arena bytes as the worklist keys.
   */
  method BuildWorklist(flat: seq<byte>, gathered: map<Key, FileInfo>, pdb: map<Key, FileInfo>, ntargets: nat, fuel: nat)
    returns (nitems: nat, infos: seq<FileInfo>, pdb': map<Key, FileInfo>, keys: seq<byte>)
    requires Terminated(flat) && 0 < ntargets < Hashing.Two32
    requires forall j :: 0 <= j < |Split(flat, 0)| ==> Split(flat, 0)[j] in gathered
    ensures nitems == |Split(flat, 0)| && keys == flat
    ensures (infos, pdb') == Build(Split(flat, 0), gathered, pdb, ntargets, fuel)
  {
    ghost var names := Split(flat, 0);
    ghost var done: seq<Key> := [];
    var s: nat := 0;
    nitems, infos, pdb' := 0, [], pdb;
    while s < |flat| && flat[s] != 0
      invariant s <= |flat| && names == done + Split(flat, s) && nitems == |done|
      invariant forall j :: 0 <= j < |done| ==> done[j] in gathered
      invariant (infos, pdb') == Build(done, gathered, pdb, ntargets, fuel)
      decreases |flat| - s
    {
      s, infos, pdb', done := BuildNext(flat, s, gathered, pdb, ntargets, fuel, infos, pdb', names, done);
      nitems := nitems + 1;
    }
    SplitStops(flat, s);
    assert done + [] == done;
    assert names == done;
    keys := flat;
  }

  /** The database after a rank stores the records of the tasks it took part in. */
  function Apply(names: seq<Key>, infos: seq<FileInfo>, pdb: map<Key, FileInfo>, involved: seq<bool>)
    : map<Key, FileInfo>
    requires |names| <= |infos| && |names| <= |involved|
  {
    if names == [] then pdb
    else
      var n := |names| - 1;
      var p := Apply(names[..n], infos, pdb, involved);
      if involved[n] then p[names[n] := infos[n]] else p
  }

  /** Only the records of tasks the rank took part in are stored; every other entry stays. */
  lemma {:induction false} ApplyOnlyInvolved(names: seq<Key>, infos: seq<FileInfo>, pdb: map<Key, FileInfo>, involved: seq<bool>, k: Key)
    requires |names| <= |infos| && |names| <= |involved|
    requires forall j :: 0 <= j < |names| && names[j] == k ==> !involved[j]
    ensures var p := Apply(names, infos, pdb, involved);
      (k in p <==> k in pdb) && (k in pdb ==> p[k] == pdb[k])
  {
    if names != [] {
      var n := |names| - 1;
      ApplyOnlyInvolved(names[..n], infos, pdb, involved, k);
    }
  }

  /** The last involved occurrence of a name decides its stored record. */
  lemma ApplyStoresInvolved(names: seq<Key>, infos: seq<FileInfo>, pdb: map<Key, FileInfo>, involved: seq<bool>, j: nat)
    requires |names| <= |infos| && |names| <= |involved| && j < |names| && involved[j]
    requires forall i :: j < i < |names| ==> names[i] != names[j]
    ensures var p := Apply(names, infos, pdb, involved);
      names[j] in p && p[names[j]] == infos[j]
    decreases |names|
  {
    if j < |names| - 1 {
      ApplyStoresInvolved(names[..|names| - 1], infos, pdb, involved, j);
    }
  }

  /**
   * The split loop every rank runs on the broadcast worklist: walk nitems
   * names by strlen and store the record of each task process_task took
   * (involved[j] is its answer for item j).
   */
  method ApplyWorklist(keys: seq<byte>, nitems: nat, infos: seq<FileInfo>, pdb: map<Key, FileInfo>, involved: seq<bool>)
    returns (pdb': map<Key, FileInfo>)
    requires Terminated(keys) && nitems <= |Split(keys, 0)| && nitems <= |infos| && nitems <= |involved|
    ensures pdb' == Apply(Split(keys, 0)[..nitems], infos, pdb, involved)
  {
    ghost var names := Split(keys, 0);
    ghost var done: seq<Key> := [];
    var j := 0;
    var s: nat := 0;
    pdb' := pdb;
    while j < nitems
      invariant j <= nitems && s <= |keys| && names == done + Split(keys, s) && j == |done|
      invariant pdb' == Apply(done, infos, pdb, involved)
    {
      var name, next := NextName(keys, s, names, done);
      assert (done + [name])[..j] == done;
      if involved[j] {
        pdb' := pdb'[name := infos[j]];
      }
      done := done + [name];
      s := next;
      j := j + 1;
    }
    assert names[..nitems] == done;
  }
}
