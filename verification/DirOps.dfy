/** Allocating entries in a directory, and registering a name in it. */
module DirOps {
  import opened Bytes
  import opened Geometry
  import opened FatSpec
  import opened Window
  import opened ChainSpec
  import opened Chain
  import opened FileSpec
  import opened Transfer
  import opened DirEntry
  import opened Utf
  import opened Lfn
  import opened DirTable
  import opened Directory
  import opened DirDisk
  import opened Names

  // ---------------------------------------------------------------- dir_clear

  /** Sectors s .. s+n-1 are zero. */
  ghost predicate Cleared(l: seq<Sector>, s: nat, n: nat) {
    s + n <= |l| && forall i :: s <= i < s + n ==> IsZero(l[i])
  }

  /** dir_clear: fill a cluster with zeros, by way of the window. */
  method DirClear(fs: Fatfs, clst: nat) returns (res: FResult)
    requires fs.Valid() && Laid(fs.geo, fs.size) && fs.geo.IsCluster(clst)
    modifies fs`wflag, fs`winsect, fs`logical, fs.win, fs.disk
    ensures fs.Consistent() && (res == OK || res == DISK_ERR) && (fs.disk.reliable ==> res == OK)
    ensures res == OK ==> fs.Valid() && Cleared(fs.logical, fs.geo.ClusterBase(clst), fs.geo.csize)
    ensures |fs.logical| == old(|fs.logical|)
    ensures forall i :: 0 <= i < |fs.logical| && !InCluster(fs.geo, clst, i) ==> fs.logical[i] == old(fs.logical[i])
  {
    hide Coherent, Mirrored, Decodes;
    ghost var l0 := fs.logical;
    res := fs.SyncWindow();
    if res != OK { return; }
    var sect := Clst2Sect(fs.geo, clst);
    ClusterPlace(fs.geo, fs.size, clst);
    fs.winsect := sect;
    forall i | 0 <= i < 512 { fs.win[i] := 0; }
    var n := 0;
    while n < fs.geo.csize
      invariant fs.Consistent() && !fs.wflag && fs.winsect == sect && 0 <= n <= fs.geo.csize
      invariant IsZero(fs.win[..]) && Cleared(fs.logical, sect, n)
      invariant |fs.logical| == |l0| && forall i :: 0 <= i < |l0| && !InCluster(fs.geo, clst, i) ==>
                  fs.logical[i] == l0[i]
    {
      var ok := ClearSector(fs, sect + n);
      if !ok { return DISK_ERR; }
      n := n + 1;
    }
    SameZeros(fs.win[..], fs.logical[sect]);
  }

  lemma SameZeros(a: Sector, b: Sector)
    requires IsZero(a) && IsZero(b)
    ensures a == b
  {
  }

  lemma ClusterPlace(g: Geometry, end: nat, c: nat)
    requires Laid(g, end) && g.IsCluster(c)
    ensures Clst2Sect(g, c) == g.ClusterBase(c) > 0 && g.ClusterBase(c) + g.csize <= end && g.csize > 0
    ensures g.ClusterBase(c) >= g.fatbase
    ensures forall i :: g.ClusterBase(c) <= i < g.ClusterBase(c) + g.csize ==>
              InCluster(g, c, i) && !g.InFat(i) && !g.InMirror(i)
  {
    ClusterInData(g, end, c, g.ClusterBase(c) + g.csize - 1);
  }

  /** Write the window, which holds zeros and nothing pending, to a sector. */
  method ClearSector(fs: Fatfs, s: nat) returns (ok: bool)
    requires fs.Consistent() && !fs.wflag && fs.geo.fatbase <= s < fs.size && !fs.geo.InFat(s) && !fs.geo.InMirror(s)
    modifies fs`logical, fs.disk
    ensures fs.Consistent() && (fs.disk.reliable ==> ok)
    ensures |fs.logical| == old(|fs.logical|) && forall i :: 0 <= i < |fs.logical| && i != s ==>
              fs.logical[i] == old(fs.logical[i])
    ensures ok ==> fs.logical[s] == fs.win[..]
  {
    ghost var l, d := fs.logical, fs.disk.sectors;
    ok := fs.disk.Write(fs.win, s);
    fs.logical := l[s := fs.disk.sectors[s]];
    Bypassed(fs.geo, l, d, fs.Pending(), s, 1, fs.logical, fs.disk.sectors);
  }

  // ---------------------------------------------------------------- dir_next with stretching

  /** The volume is sound, and the directory is its static root or one of its chains. */
  ghost predicate Sound(d: Dir, chain: seq<nat>)
    reads d, d.fs, d.fs.win, d.fs.disk
  {
    && d.Valid() && Forest(d.fs.fat) && CountOk(d.fs.fat, d.fs.freeClst)
    && Chained(d.fs.geo, d.fs.fat, d.sclust, chain)
  }

  /** Every other chain is the same, with the same bytes, and so is every sector outside FATs and data,
      but for a directory that is the static root its own. */
  ghost predicate OthersKept(g: Geometry, f: seq<nat>, l: seq<Sector>, chain: seq<nat>, f': seq<nat>, l': seq<Sector>,
                             chain': seq<nat>) {
    && |f'| == |f| && |l'| == |l| && (chain' == [] <==> chain == [])
    && (forall t :: IsChain(f, t) && Apart(chain, t) ==>
          IsChain(f', t) && Apart(chain', t) && forall i :: 0 <= i < |l| && Owns(g, t, i) ==> l'[i] == l[i])
    && (forall i :: 0 <= i < |l| && Aside(g, i) && !(chain == [] && g.dirbase <= i < g.database) ==> l'[i] == l[i])
  }

  /** Outside the FATs and the data area. */
  ghost predicate Aside(g: Geometry, i: int) { !g.InFat(i) && !g.InMirror(i) && !g.InData(i) }

  /** The directory has grown by k entries of zeros. */
  ghost predicate Grown(t: seq<Entry>, t': seq<Entry>) {
    |t| <= |t'| && t' == t + Zeros(|t'| - |t|)
  }

  lemma GrownOn(a: seq<Entry>, b: seq<Entry>, c: seq<Entry>)
    requires Grown(a, b) && Grown(b, c)
    ensures Grown(a, c)
  {
    var k, m := |b| - |a|, |c| - |b|;
    assert Zeros(k) + Zeros(m) == Zeros(k + m);
    assert c == a + (Zeros(k) + Zeros(m));
  }

  lemma GrownNone(a: seq<Entry>)
    ensures Grown(a, a)
  {
    assert a == a + Zeros(0);
  }

  /** At the end of the chain: the cluster of the last entry is the last one, and all entries are passed. */
  lemma LastCluster(g: Geometry, end: nat, f: seq<nat>, sclust: nat, chain: seq<nat>, i: nat)
    requires Laid(g, end) && Chained(g, f, sclust, chain) && !IsStatic(g, sclust) && SectorAt(g, f, sclust, i) != 0
    requires (i + 1) % 16 == 0 && Rem((i + 1) / 16, g.csize) == 0 && i + 1 < MAX_ENTRIES
    requires 2 <= ClusterAt(g, f, sclust, i) < |f| && f[ClusterAt(g, f, sclust, i)] >= |f|
    ensures ClusterAt(g, f, sclust, i) == chain[|chain| - 1] && Count(g, f, sclust) == i + 1
    ensures Quot((i + 1) / 16, g.csize) == |chain|
  {
    var q := (i + 1) / 16;
    assert i / 16 == q - 1;
    QuotBefore(q, g.csize);
    QuotRem(q, g.csize);
    var k := Quot(i / 16, g.csize);
    NthOfChain(f, chain, k);
    ChainNext(f, chain, k);
    CountOfChain(g, end, f, sclust, chain);
  }

  /** What appending a cleared cluster does. */
  lemma StretchStep(g: Geometry, end: nat, f: seq<nat>, free: nat, l: seq<Sector>, sclust: nat, chain: seq<nat>,
                    r: nat, e: nat,
                    l1: seq<Sector>, l2: seq<Sector>)
    requires Laid(g, end) && |l| == end && Forest(f) && CountOk(f, free) && Chained(g, f, sclust, chain)
    requires !IsStatic(g, sclust)
    requires 2 <= r < |f| && f[r] == 0 && e >= |f| && SameButFat(g, l, l1) && |l2| == end
    requires forall i :: 0 <= i < end && !InCluster(g, r, i) ==> l2[i] == l1[i]
    requires Cleared(l2, g.ClusterBase(r), g.csize)
    ensures 2 <= chain[|chain| - 1] < |f|
    ensures var f' := f[r := e][chain[|chain| - 1] := r];
            && Forest(f') && CountOk(f', CountAfterTaking(free, |f|)) && Chained(g, f', sclust, chain + [r])
            && Grown(Table(g, end, f, l, sclust), Table(g, end, f', l2, sclust))
            && OthersKept(g, f, l, chain, f', l2, chain + [r])
  {
    Stretched(f, chain, r, e);
    var f' := f[r := e][chain[|chain| - 1] := r];
    TakingCounts(f, f', free);
    TableStretched(g, end, f, l, sclust, chain, r, f', l2);
    forall t, i | IsChain(f, t) && Apart(chain, t) && 0 <= i < |l| && Owns(g, t, i) ensures l2[i] == l[i] {
      AllOnDisk(g, end, t);
      OwnedElsewhere(g, t, r, i, f, f', chain);
    }
    forall i | 0 <= i < |l| && Aside(g, i) ensures l2[i] == l[i] {
      if InCluster(g, r, i) { ClusterInData(g, end, r, i); }
    }
  }

  lemma OwnedElsewhere(g: Geometry, t: seq<nat>, r: nat, i: int, f: seq<nat>, f': seq<nat>, chain: seq<nat>)
    requires g.csize > 0 && Owns(g, t, i) && IsChain(f, t) && r < |f| && f[r] == 0
    ensures !InCluster(g, r, i)
  {
    ChainUsed(f, t);
    var k :| 0 <= k < |t| && InCluster(g, t[k], i);
    if InCluster(g, r, i) { ClustersApart(g, r, t[k], i); }
  }

  /** On any FAT: the clusters up to the last entry are a chain, which the directory then has one more
      cluster of, and entries of zeros in it. */
  lemma StretchPath(g: Geometry, end: nat, f: seq<nat>, l: seq<Sector>, sclust: nat, i: nat, r: nat, e: nat,
                    l1: seq<Sector>, l2: seq<Sector>)
    requires Laid(g, end) && |l| == end && |f| == g.nFatent && !IsStatic(g, sclust) && SectorAt(g, f, sclust, i) != 0
    requires (i + 1) % 16 == 0 && Rem((i + 1) / 16, g.csize) == 0 && i + 1 < MAX_ENTRIES
    requires 2 <= ClusterAt(g, f, sclust, i) < |f| && f[ClusterAt(g, f, sclust, i)] >= |f|
    requires 2 <= r < |f| && f[r] == 0 && e >= |f| && SameButFat(g, l, l1) && |l2| == end
    requires forall s :: 0 <= s < end && !InCluster(g, r, s) ==> l2[s] == l1[s]
    requires Cleared(l2, g.ClusterBase(r), g.csize)
    ensures var f' := f[r := e][ClusterAt(g, f, sclust, i) := r];
            && Grown(Table(g, end, f, l, sclust), Table(g, end, f', l2, sclust))
            && ClusterAt(g, f', sclust, i + 1) == r && SectorAt(g, f', sclust, i + 1) == Clst2Sect(g, r) != 0
  {
    hide Chained, Table, SectorAt, ClusterAt, Laid, IsChain, Cleared, SameButFat, InCluster, Grown, Path;
    var path := PathChained(g, end, f, sclust, i);
    LastCluster(g, end, f, sclust, path, i);
    PathStretched(g, f, sclust, path, r, e);
    var f' := f[r := e][path[|path| - 1] := r];
    StretchedSame(g, end, r, l, l1, l2);
    TableStretched(g, end, f, l, sclust, path, r, f', l2);
    NewEntry(g, end, f', sclust, path, r, i + 1);
    GrownBy(Table(g, end, f, l, sclust), Table(g, end, f', l2, sclust));
  }

  lemma GrownBy(t: seq<Entry>, t': seq<Entry>)
    ensures |t| <= |t'| && t' == t + Zeros(|t'| - |t|) ==> Grown(t, t')
  {
  }

  lemma PathChained(g: Geometry, end: nat, f: seq<nat>, sclust: nat, i: nat) returns (path: seq<nat>)
    requires Laid(g, end) && |f| == g.nFatent && !IsStatic(g, sclust)
    requires 2 <= ClusterAt(g, f, sclust, i) < |f| && f[ClusterAt(g, f, sclust, i)] >= |f|
    ensures Chained(g, f, sclust, path)
  {
    path := Path(f, StartCluster(g, sclust), Quot(i / 16, g.csize));
    PathIsChain(f, StartCluster(g, sclust), Quot(i / 16, g.csize));
  }

  lemma PathStretched(g: Geometry, f: seq<nat>, sclust: nat, path: seq<nat>, r: nat, e: nat)
    requires Chained(g, f, sclust, path) && !IsStatic(g, sclust) && 2 <= r < |f| && f[r] == 0 && e >= |f|
    ensures r !in path && path[|path| - 1] < |f| && Chained(g, f[r := e][path[|path| - 1] := r], sclust, path + [r])
  {
    ClaimKeeps(f, r, e, path);
    assert IsChain(f[r := e], [r]);
    JoinChains(f[r := e], path, [r]);
  }

  lemma StretchedSame(g: Geometry, end: nat, r: nat, l: seq<Sector>, l1: seq<Sector>, l2: seq<Sector>)
    requires Laid(g, end) && g.IsCluster(r) && |l| == |l2| == end && SameButFat(g, l, l1)
    requires Cleared(l2, g.ClusterBase(r), g.csize)
    requires forall s :: 0 <= s < end && !InCluster(g, r, s) ==> l2[s] == l1[s]
    ensures forall s :: 0 <= s < end && !g.InFat(s) && !g.InMirror(s) && !InCluster(g, r, s) ==> l2[s] == l[s]
    ensures forall s :: 0 <= s < end && InCluster(g, r, s) ==> IsZero(l2[s])
  {
  }

  /** The end of dir_next with stretching: append a cleared cluster and go to its first entry. */
  method Stretch(d: Dir, ghost chain: seq<nat>, ghost i: nat) returns (res: FResult, ghost chain': seq<nat>)
    requires d.Valid() && d.fs.geo.csize > 0 && d.AtEnd(i)
    modifies d`dptr, d`clust, d`sect
    modifies d.fs`wflag, d.fs`winsect, d.fs`logical, d.fs`fat, d.fs`freeClst, d.fs`lastClst, d.fs`infoDue, d.fs.win
    modifies d.fs.disk
    ensures d.fs.Consistent() && (d.fs.disk.reliable ==> res != DISK_ERR)
    ensures res == OK || res == DENIED || res == INT_ERR || res == DISK_ERR
    ensures res != DISK_ERR ==> d.Valid() && Grown(old(d.Tab()), d.Tab())
    ensures res == OK ==> d.At(i + 1)
    ensures res != OK && res != DISK_ERR ==> d.Tab() == old(d.Tab()) && |d.Tab()| == i + 1
    ensures res == DENIED ==> d.fs.freeClst == 0 || NoneFree(d.fs.fat)
    ensures res != DISK_ERR && i + 1 < |old(d.Tab())| ==> d.Tab() == old(d.Tab())
    ensures old(Sound(d, chain)) && d.fs.disk.reliable ==> res != INT_ERR
    ensures old(Sound(d, chain)) && res != DISK_ERR ==>
              Sound(d, chain')
              && OthersKept(d.fs.geo, old(d.fs.fat), old(d.fs.logical), chain, d.fs.fat, d.fs.logical, chain')
  {
    hide Coherent, Mirrored, Decodes, Forest, Table, OthersKept, Laid, FatLaid, HasFat, NoneFree, Grown, Chained;
    hide Count, EntryAt, CountOk, Fatfs.Tracked;
    ghost var g, end, f, free, l, e := d.fs.geo, d.fs.size, d.fs.fat, d.fs.freeClst, d.fs.logical,
        Clip(d.fs.geo.fsType, EOC);
    ghost var sound, c := Sound(d, chain), d.clust;
    chain' := chain;
    GrownNone(d.Tab());
    AllKept(g, f, l, chain);
    TableStarts(g, end);
    EntryExists(g, end, f, l, d.sclust, i);
    EntryExists(g, end, f, l, d.sclust, i + 1);
    LastEntry(g, end, f, l, d.sclust, i);
    if sound {
      LastCluster(g, end, f, d.sclust, chain, i);
      NoOnesFree(f, free);
    }
    EndMark(g, end);
    var clst := CreateChain(d.fs, d.clust);
    if clst == 0 { return DENIED, chain'; }
    if clst == 1 { return INT_ERR, chain'; }
    if clst == FAT_DISK_ERR { return DISK_ERR, chain'; }
    ghost var l1 := d.fs.logical;
    res := DirClear(d.fs, clst);
    if res != OK { return; }
    StretchPath(g, end, f, l, d.sclust, i, clst, e, l1, d.fs.logical);
    if sound {
      StretchStep(g, end, f, free, l, d.sclust, chain, clst, e, l1, d.fs.logical);
      chain' := chain + [clst];
    }
    d.clust := clst;
    d.sect := Clst2Sect(d.fs.geo, clst);
    d.dptr := d.dptr + 32;
  }

  /** An entry in the last cluster before an end mark, at its end, is the last one. */
  lemma LastEntry(g: Geometry, end: nat, f: seq<nat>, l: seq<Sector>, sclust: nat, i: nat)
    requires Laid(g, end) && |l| == end && |f| == g.nFatent && !IsStatic(g, sclust) && SectorAt(g, f, sclust, i) != 0
    requires (i + 1) % 16 == 0 && Rem((i + 1) / 16, g.csize) == 0 && i + 1 < MAX_ENTRIES
    requires 2 <= ClusterAt(g, f, sclust, i) < |f| && f[ClusterAt(g, f, sclust, i)] >= |f|
    ensures |Table(g, end, f, l, sclust)| == i + 1
  {
    hide Chained, SectorAt, ClusterAt;
    var path := PathChained(g, end, f, sclust, i);
    LastCluster(g, end, f, sclust, path, i);
  }

  lemma AllKept(g: Geometry, f: seq<nat>, l: seq<Sector>, chain: seq<nat>)
    ensures OthersKept(g, f, l, chain, f, l, chain)
  {
  }

  lemma NoOnesFree(f: seq<nat>, free: nat)
    requires Forest(f) && CountOk(f, free)
    ensures forall c :: 2 <= c < |f| ==> f[c] != 1
    ensures free == 0 ==> NoneFree(f)
  {
    FreeBelowZero(f, |f|);
  }

  /** The first entry of an appended cluster. */
  lemma NewEntry(g: Geometry, end: nat, f: seq<nat>, sclust: nat, chain: seq<nat>, r: nat, i: nat)
    requires Laid(g, end) && Chained(g, f, sclust, chain + [r]) && !IsStatic(g, sclust) && i < MAX_ENTRIES
    requires i % 16 == 0 && Rem(i / 16, g.csize) == 0 && Quot(i / 16, g.csize) == |chain|
    ensures ClusterAt(g, f, sclust, i) == r && SectorAt(g, f, sclust, i) == Clst2Sect(g, r) != 0
  {
    NthOfChain(f, chain + [r], |chain|);
    assert (chain + [r])[|chain|] == r;
  }

  /** dir_next with stretching, on any FAT: to the next entry, with a cleared cluster appended when there
      is none; other objects are kept on a sound volume. */
  method DirNext(d: Dir, ghost chain: seq<nat>, ghost i: nat) returns (res: FResult, ghost chain': seq<nat>)
    requires d.Valid() && d.fs.geo.csize > 0 && d.At(i)
    modifies d`dptr, d`clust, d`sect
    modifies d.fs`wflag, d.fs`winsect, d.fs`logical, d.fs`fat, d.fs`freeClst, d.fs`lastClst, d.fs`infoDue, d.fs.win
    modifies d.fs.disk
    ensures d.fs.Consistent() && (d.fs.disk.reliable ==> res != DISK_ERR)
    ensures res == OK || res == DENIED || res == NO_FILE || res == INT_ERR || res == DISK_ERR
    ensures res != DISK_ERR ==> d.Valid() && Grown(old(d.Tab()), d.Tab())
    ensures res == OK ==> d.At(i + 1)
    ensures res != OK && res != DISK_ERR ==> d.Tab() == old(d.Tab()) && |d.Tab()| == i + 1
    ensures res == DENIED ==> d.fs.freeClst == 0 || NoneFree(d.fs.fat)
    ensures res == NO_FILE ==> IsStatic(d.fs.geo, d.sclust) || i + 1 >= MAX_ENTRIES
    ensures res != DISK_ERR && i + 1 < |old(d.Tab())| ==> d.Tab() == old(d.Tab())
    ensures old(Sound(d, chain)) && d.fs.disk.reliable ==> res != INT_ERR
    ensures old(Sound(d, chain)) && res != DISK_ERR ==>
              Sound(d, chain')
              && OthersKept(d.fs.geo, old(d.fs.fat), old(d.fs.logical), chain, d.fs.fat, d.fs.logical, chain')
  {
    hide Coherent, Mirrored, Decodes, Forest, Table, OthersKept, Laid, FatLaid, HasFat, NoneFree, Grown, Chained;
    hide SectorAt, ClusterAt;
    chain' := chain;
    GrownNone(d.Tab());
    AllKept(d.fs.geo, d.fs.fat, d.fs.logical, chain);
    TableStarts(d.fs.geo, d.fs.size);
    CountExact(d.fs.geo, d.fs.fat, d.sclust, i);
    CountExact(d.fs.geo, d.fs.fat, d.sclust, i + 1);
    if Sound(d, chain) { LinkGood(d.fs.geo, d.fs.fat, d.sclust, chain, i); }
    CountIs(d.fs.geo, d.fs.size, d.fs.fat, d.fs.logical, d.sclust);
    var end;
    res, end := d.Step(i);
    if res == OK && end {
      res, chain' := Stretch(d, chain, i);
    }
  }

  lemma CountIs(g: Geometry, end: nat, f: seq<nat>, l: seq<Sector>, sclust: nat)
    requires Laid(g, end) && |f| == g.nFatent && |l| == end
    ensures |Table(g, end, f, l, sclust)| == Count(g, f, sclust)
  {
  }

  lemma LinkGood(g: Geometry, f: seq<nat>, sclust: nat, chain: seq<nat>, i: nat)
    requires Chained(g, f, sclust, chain) && g.csize > 0
    ensures !BadLink(g, f, sclust, i)
  {
    if !IsStatic(g, sclust) {
      NthOfChain(f, chain, Quot(i / 16, g.csize));
      ChainUsed(f, chain);
    }
  }

  /** The links of a chain are good. */
  lemma SoundLinks(d: Dir, chain: seq<nat>)
    requires Sound(d, chain)
    ensures d.fs.geo.csize > 0 && LinksGood(d.fs.geo, d.fs.fat, d.sclust)
  {
    hide BadLink, ClusterAt;
    FirstEntry(d, chain);
    forall i: nat
      ensures !BadLink(d.fs.geo, d.fs.fat, d.sclust, i)
    {
      LinkGood(d.fs.geo, d.fs.fat, d.sclust, chain, i);
    }
  }

  // ---------------------------------------------------------------- dir_alloc

  /** After n free entries before entry i, the search of any longer table goes on from there. */
  ghost predicate Searched(t: seq<Entry>, i: nat, n: nat, want: nat) {
    i <= |t| && n < want && forall z: seq<Entry> :: AllocFrom(t + z, 0, 0, want) == AllocFrom(t + z, i, n, want)
  }

  lemma SearchOn(t: seq<Entry>, i: nat, n: nat, want: nat)
    requires Searched(t, i, n, want) && i < |t|
    ensures IsFree(t[i]) && n + 1 != want ==> Searched(t, i + 1, n + 1, want)
    ensures !IsFree(t[i]) ==> Searched(t, i + 1, 0, want)
    ensures IsFree(t[i]) && n + 1 == want ==> AllocFrom(t, 0, 0, want) == i
  {
    forall z: seq<Entry> ensures (t + z)[i] == t[i] { }
    assert t + [] == t;
    if IsFree(t[i]) && n + 1 < want {
      forall z: seq<Entry> ensures AllocFrom(t + z, 0, 0, want) == AllocFrom(t + z, i + 1, n + 1, want) {
        assert (t + z)[i] == t[i];
      }
    }
    if !IsFree(t[i]) {
      forall z: seq<Entry> ensures AllocFrom(t + z, 0, 0, want) == AllocFrom(t + z, i + 1, 0, want) {
        assert (t + z)[i] == t[i];
      }
    }
  }

  lemma SearchedAll(t: seq<Entry>, n: nat, want: nat)
    requires Searched(t, |t|, n, want)
    ensures AllocFrom(t, 0, 0, want) == -1
  {
    assert t + [] == t;
  }

  lemma SearchedGrown(t: seq<Entry>, t': seq<Entry>, i: nat, n: nat, want: nat)
    requires Searched(t, i, n, want) && Grown(t, t')
    ensures Searched(t', i, n, want)
  {
    var y := Zeros(|t'| - |t|);
    forall z: seq<Entry> ensures AllocFrom(t' + z, 0, 0, want) == AllocFrom(t' + z, i, n, want) {
      assert t' + z == t + (y + z);
    }
  }

  lemma SearchNone(t: seq<Entry>, want: nat)
    requires want > 0
    ensures Searched(t, 0, 0, want)
  {
  }

  /** A directory with room is not stretched; a search that goes on in a stretched one has failed before. */
  lemma StillFirst(t0: seq<Entry>, t: seq<Entry>, t': seq<Entry>, i: nat, n: nat, want: nat)
    requires Searched(t, i, n, want) && Grown(t, t') && (i < |t| ==> t' == t)
    requires AllocFrom(t0, 0, 0, want) != -1 ==> t == t0
    ensures Searched(t', i, n, want) && (AllocFrom(t0, 0, 0, want) != -1 ==> t' == t0)
  {
    SearchedGrown(t, t', i, n, want);
    if i == |t| { SearchedAll(t, n, want); }
  }

  lemma FirstEntry(d: Dir, chain: seq<nat>)
    requires Sound(d, chain)
    ensures d.fs.geo.csize > 0 && SectorAt(d.fs.geo, d.fs.fat, d.sclust, 0) != 0 && 0 < |d.Tab()|
  {
    var g := d.fs.geo;
    ChainSector(g, d.fs.fat, d.sclust, chain, 0);
    CountOfChain(g, d.fs.size, d.fs.fat, d.sclust, chain);
    if !IsStatic(g, d.sclust) { ClusterSectorsMonotone(g.csize, 0, |chain|); }
  }

  lemma Steady(d: Dir)
    requires d.Valid()
    ensures d.fs.Consistent() && |d.fs.logical| == d.fs.size && |d.fs.fat| == d.fs.geo.nFatent
  {
  }

  lemma EntryExists(g: Geometry, end: nat, f: seq<nat>, l: seq<Sector>, sclust: nat, i: nat)
    requires Laid(g, end) && |l| == end && |f| == g.nFatent
    ensures SectorAt(g, f, sclust, i) != 0 <==> i < |Table(g, end, f, l, sclust)|
    ensures SectorAt(g, f, sclust, i) != 0 ==> i < MAX_ENTRIES
  {
    CountExact(g, f, sclust, i);
  }

  lemma OthersKeptOn(g: Geometry, f: seq<nat>, l: seq<Sector>, a: seq<nat>, f1: seq<nat>, l1: seq<Sector>, b: seq<nat>,
                     f2: seq<nat>, l2: seq<Sector>, c: seq<nat>)
    requires OthersKept(g, f, l, a, f1, l1, b) && OthersKept(g, f1, l1, b, f2, l2, c)
    ensures OthersKept(g, f, l, a, f2, l2, c)
  {
  }

  lemma FreeByByte(w: Sector, o: nat)
    requires o + 32 <= 512
    ensures IsFree(EntryAt(w, o)) <==> w[o] as nat == DELETED || w[o] == 0
  {
  }

  /** The test of dir_alloc: whether the entry of the cursor is free. */
  method EntryFree(d: Dir, ghost i: nat) returns (res: FResult, free: bool)
    requires d.Valid() && d.fs.geo.csize > 0 && d.At(i)
    modifies d.fs`wflag, d.fs`winsect, d.fs.win, d.fs.disk
    ensures d.Valid() && (d.fs.disk.reliable ==> res == OK) && (res == OK || res == DISK_ERR)
    ensures res == OK ==> i < |d.Tab()| && free == IsFree(d.Tab()[i])
  {
    hide Coherent, Mirrored, Decodes, Table, Laid, SectorAt, ClusterAt, EntryAt, IsFree;
    free := false;
    var o;
    res, o := d.Show(i);
    if res == OK {
      FreeByByte(d.fs.win[..], o);
      free := d.fs.win[o] as nat == DELETED || d.fs.win[o] == 0;
    }
  }

  /** The step of dir_alloc from entry `at` to the next, when n free entries were passed last. */
  method AllocNext(d: Dir, ghost t0: seq<Entry>, ghost at: nat, ghost n: nat, ghost want: nat, ghost chain: seq<nat>)
    returns (res: FResult, ghost chain': seq<nat>)
    requires d.Valid() && d.fs.geo.csize > 0 && d.At(at) && at < |d.Tab()| && Searched(d.Tab(), at + 1, n, want)
    requires Grown(t0, d.Tab()) && (AllocFrom(t0, 0, 0, want) != -1 ==> d.Tab() == t0)
    modifies d`dptr, d`clust, d`sect
    modifies d.fs`wflag, d.fs`winsect, d.fs`logical, d.fs`fat, d.fs`freeClst, d.fs`lastClst, d.fs`infoDue, d.fs.win
    modifies d.fs.disk
    ensures d.fs.Consistent() && (d.fs.disk.reliable ==> res != DISK_ERR)
    ensures res == OK || res == DENIED || res == NO_FILE || res == INT_ERR || res == DISK_ERR
    ensures res != DISK_ERR ==> d.Valid() && Grown(t0, d.Tab()) && (AllocFrom(t0, 0, 0, want) != -1 ==> d.Tab() == t0)
    ensures res == OK ==>
              d.At(at + 1) && at + 1 < |d.Tab()| && at + 1 < MAX_ENTRIES && Searched(d.Tab(), at + 1, n, want)
    ensures res == DENIED || res == INT_ERR || res == NO_FILE ==> AllocFrom(d.Tab(), 0, 0, want) == -1
    ensures res == DENIED ==> d.fs.freeClst == 0 || NoneFree(d.fs.fat)
    ensures res == NO_FILE ==> IsStatic(d.fs.geo, d.sclust) || |d.Tab()| >= MAX_ENTRIES
    ensures old(Sound(d, chain)) && d.fs.disk.reliable ==> res != INT_ERR
    ensures old(Sound(d, chain)) && res != DISK_ERR ==>
              Sound(d, chain')
              && OthersKept(d.fs.geo, old(d.fs.fat), old(d.fs.logical), chain, d.fs.fat, d.fs.logical, chain')
  {
    hide Coherent, Mirrored, Decodes, Forest, Table, OthersKept, Laid, FatLaid, HasFat, NoneFree, Grown, Chained;
    hide SectorAt, ClusterAt;
    hide AllocFrom, Searched, CountOk, Count, EntryAt, IsFree;
    ghost var t := d.Tab();
    res, chain' := DirNext(d, chain, at);
    if res == DISK_ERR { return; }
    GrownOn(t0, t, d.Tab());
    StillFirst(t0, t, d.Tab(), at + 1, n, want);
    EntryExists(d.fs.geo, d.fs.size, d.fs.fat, d.fs.logical, d.sclust, at + 1);
    if res != OK { SearchedAll(t, n, want); }
  }

  /** dir_alloc, on any FAT: go to the last of `want` contiguous free entries, the first such block of the
      directory; clusters are appended as needed. A directory without room is the static root, or has as
      many entries as there can be, or the volume is full. */
  method DirAlloc(d: Dir, want: nat, ghost chain: seq<nat>)
    returns (res: FResult, ghost at: nat, ghost chain': seq<nat>)
    requires d.Valid() && want > 0
    modifies d`dptr, d`clust, d`sect
    modifies d.fs`wflag, d.fs`winsect, d.fs`logical, d.fs`fat, d.fs`freeClst, d.fs`lastClst, d.fs`infoDue, d.fs.win
    modifies d.fs.disk
    ensures d.fs.Consistent() && (d.fs.disk.reliable ==> res != DISK_ERR)
    ensures res == OK || res == DENIED || res == INT_ERR || res == DISK_ERR
    ensures res != DISK_ERR ==>
              d.Valid() && d.fs.geo.csize > 0 && Grown(old(d.Tab()), d.Tab())
              && (AllocFrom(old(d.Tab()), 0, 0, want) != -1 ==> d.Tab() == old(d.Tab()))
    ensures res == OK ==>
              AllocFrom(d.Tab(), 0, 0, want) == at && d.At(at)
              && want - 1 <= at < |d.Tab()| && forall j :: at + 1 - want <= j <= at ==> IsFree(d.Tab()[j])
    ensures res == DENIED || res == INT_ERR ==> AllocFrom(d.Tab(), 0, 0, want) == -1
    ensures res == DENIED ==>
              IsStatic(d.fs.geo, d.sclust) || |d.Tab()| >= MAX_ENTRIES || d.fs.freeClst == 0 || NoneFree(d.fs.fat)
    ensures old(Sound(d, chain)) && d.fs.disk.reliable ==> res == OK || res == DENIED
    ensures old(Sound(d, chain)) && res != DISK_ERR ==>
              Sound(d, chain')
              && OthersKept(d.fs.geo, old(d.fs.fat), old(d.fs.logical), chain, d.fs.fat, d.fs.logical, chain')
  {
    hide Searched;
    hide Coherent, Mirrored, Decodes, Forest, Table, OthersKept, Laid, FatLaid, HasFat, NoneFree, Grown, Chained;
    hide SectorAt, ClusterAt;
    hide AllocFrom, Searched, CountOk, Count, EntryAt, IsFree;
    ghost var t0, g, f0, l0, sound := d.Tab(), d.fs.geo, d.fs.fat, d.fs.logical, Sound(d, chain);
    chain', at := chain, 0;
    GrownNone(t0);
    AllKept(g, f0, l0, chain);
    TableStarts(g, d.fs.size);
    if sound { FirstEntry(d, chain); }
    SearchNone(t0, want);
    EntryExists(g, d.fs.size, f0, l0, d.sclust, 0);
    res := d.Sdi(0);
    if res != OK {
      if t0 == [] { SearchedAll(t0, 0, want); }
    } else {
      var n: nat := 0;
      while true
        invariant res == OK && d.Valid() && d.fs.geo.csize > 0 && d.At(at) && at < |d.Tab()|
        invariant Searched(d.Tab(), at, n, want)
        invariant Grown(t0, d.Tab()) && (AllocFrom(t0, 0, 0, want) != -1 ==> d.Tab() == t0)
        invariant sound ==> Sound(d, chain') && OthersKept(g, f0, l0, chain, d.fs.fat, d.fs.logical, chain')
        decreases MAX_ENTRIES - at
      {
        ghost var f, l, c := d.fs.fat, d.fs.logical, chain';
        var free;
        res, free := EntryFree(d, at);
        if res != OK { break; }
        SearchOn(d.Tab(), at, n, want);
        if free {
          n := n + 1;
          if n == want { break; }
        } else {
          n := 0;
        }
        res, chain' := AllocNext(d, t0, at, n, want, c);
        if sound && res != DISK_ERR { OthersKeptOn(g, f0, l0, chain, f, l, c, d.fs.fat, d.fs.logical, chain'); }
        if res != OK { break; }
        at := at + 1;
      }
      if res == OK { AllocContiguous(d.Tab(), 0, 0, want); }
    }
    if res == NO_FILE { res := DENIED; }
  }

  // ---------------------------------------------------------------- writing an entry

  /** Entry i of the directory becomes e, by way of its sector; other objects are not touched. */
  lemma PutStep(g: Geometry, end: nat, f: seq<nat>, l: seq<Sector>, sclust: nat, chain: seq<nat>, i: nat, e: Entry,
                w: Sector)
    requires Laid(g, end) && |l| == end && Chained(g, f, sclust, chain) && i < |Table(g, end, f, l, sclust)|
    requires SectorAt(g, f, sclust, i) < end && w == PutBytes(l[SectorAt(g, f, sclust, i)], 32 * (i % 16), e)
    ensures var l' := l[SectorAt(g, f, sclust, i) := w];
            Table(g, end, f, l', sclust) == Table(g, end, f, l, sclust)[i := e]
            && OthersKept(g, f, l, chain, f, l', chain)
  {
    EntrySet(g, end, f, l, sclust, chain, i, e);
    CountOfChain(g, end, f, sclust, chain);
    ChainSector(g, f, sclust, chain, i);
    var s := SectorAt(g, f, sclust, i);
    if !IsStatic(g, sclust) {
      SectorOfOwned(g, chain, i / 16);
      AllOnDisk(g, end, chain);
    }
    forall t | IsChain(f, t) && Apart(chain, t) ensures !Owns(g, t, s) { NotOwned(g, end, f, sclust, chain, t, s); }
  }

  lemma NotOwned(g: Geometry, end: nat, f: seq<nat>, sclust: nat, chain: seq<nat>, t: seq<nat>, s: nat)
    requires Laid(g, end) && Chained(g, f, sclust, chain) && IsChain(f, t) && Apart(chain, t)
    requires if IsStatic(g, sclust) then g.dirbase <= s < g.database else Owns(g, chain, s)
    ensures !Owns(g, t, s)
  {
    AllOnDisk(g, end, t);
    if !IsStatic(g, sclust) {
      OwnersApart(g, chain, t, s);
    }
  }

  /** Put the changed window, which shows the sector of entry i, in place of it. */
  method Store(d: Dir, ghost chain: seq<nat>, ghost i: nat, ghost e: Entry, ghost w: Sector)
    requires d.fs.Consistent() && Laid(d.fs.geo, d.fs.size) && d.fs.win.Length == 512
    requires i < |Table(d.fs.geo, d.fs.size, d.fs.fat, d.fs.logical, d.sclust)|
    requires d.fs.winsect == SectorAt(d.fs.geo, d.fs.fat, d.sclust, i) < d.fs.size && w == d.fs.logical[d.fs.winsect]
    requires d.fs.win[..] == PutBytes(w, 32 * (i % 16), e)
    modifies d.fs`wflag, d.fs`logical
    ensures d.fs.Valid()
    ensures Chained(d.fs.geo, d.fs.fat, d.sclust, chain) ==>
              Table(d.fs.geo, d.fs.size, d.fs.fat, d.fs.logical, d.sclust)
              == old(Table(d.fs.geo, d.fs.size, d.fs.fat, d.fs.logical, d.sclust))[i := e]
              && OthersKept(d.fs.geo, d.fs.fat, old(d.fs.logical), chain, d.fs.fat, d.fs.logical, chain)
  {
    hide Coherent, Mirrored, Decodes, Table, OthersKept, Chained, SectorAt, PutBytes, Laid;
    SectorPlace(d.fs.geo, d.fs.size, d.fs.fat, d.sclust, i);
    if Chained(d.fs.geo, d.fs.fat, d.sclust, chain) {
      PutStep(d.fs.geo, d.fs.size, d.fs.fat, d.fs.logical, d.sclust, chain, i, e, d.fs.win[..]);
    }
    MarkOther(d.fs);
  }

  /** Store part ord of the long name in entry i. */
  method PutPart(d: Dir, ghost chain: seq<nat>, ghost i: nat, ord: nat, sum: byte, ghost n: seq<unit>)
    returns (res: FResult, ghost e: Entry)
    requires d.Valid() && d.fs.geo.csize > 0 && d.At(i) && HasName(d.lfnbuf[..], n) && 1 <= ord <= Parts(|n|)
    modifies d.fs`wflag, d.fs`winsect, d.fs`logical, d.fs.win, d.fs.disk
    ensures d.Valid() && (res == OK || res == DISK_ERR) && (d.fs.disk.reliable ==> res == OK)
    ensures res == OK ==> i < |old(d.Tab())| && IsPart(e, n, ord, sum)
    ensures res == OK && old(Sound(d, chain)) ==>
              i < |old(d.Tab())| && d.Tab() == old(d.Tab())[i := e]
              && OthersKept(d.fs.geo, d.fs.fat, old(d.fs.logical), chain, d.fs.fat, d.fs.logical, chain)
  {
    hide Coherent, Mirrored, Decodes, Table, OthersKept, Chained, SectorAt, ClusterAt, PutBytes, Laid, IsPart, Forest;
    hide HasName;
    var o;
    res, o := d.Show(i);
    e := Blank();
    NameLength(d.lfnbuf[..], n);
    if res != OK { return; }
    ghost var w: Sector := d.fs.win[..];
    e := PutLfn(d.lfnbuf, n, d.fs.win, o, ord, sum);
    SectorPlace(d.fs.geo, d.fs.size, d.fs.fat, d.sclust, i);
    Store(d, chain, i, e, w);
  }

  lemma NameLength(b: Buffer, n: seq<unit>)
    requires HasName(b, n)
    ensures Parts(|n|) <= 20
  {
  }

  // ---------------------------------------------------------------- dir_register

  /** The short name entry dir_register makes of the 11 bytes and the flags of a name. */
  function SfnEntry(fn: seq<byte>): (e: Entry)
    requires |fn| == 12
    ensures e[..11] == fn[..11] && Attr(e) == 0 && e[12] as nat == fn[11] as nat / 8 % 4 * 8
    ensures e[11] == 0 && forall i :: 13 <= i < 32 ==> e[i] == 0
  {
    var e: seq<byte> := seq(32, i requires 0 <= i < 32 =>
      if i < 11 then fn[i] else if i == 12 then fn[11] as nat / 8 % 4 * 8 else 0);
    e
  }

  /** Store the short name in entry i. */
  method PutSfn(d: Dir, ghost chain: seq<nat>, ghost i: nat) returns (res: FResult)
    requires d.Valid() && d.fs.geo.csize > 0 && d.At(i)
    modifies d.fs`wflag, d.fs`winsect, d.fs`logical, d.fs.win, d.fs.disk
    ensures d.Valid() && (res == OK || res == DISK_ERR) && (d.fs.disk.reliable ==> res == OK)
    ensures res == OK && old(Sound(d, chain)) ==>
              i < |old(d.Tab())| && d.Tab() == old(d.Tab())[i := SfnEntry(d.fn[..])]
              && OthersKept(d.fs.geo, d.fs.fat, old(d.fs.logical), chain, d.fs.fat, d.fs.logical, chain)
  {
    hide Coherent, Mirrored, Decodes, Table, OthersKept, Chained, SectorAt, ClusterAt, Laid, Forest;
    var o;
    res, o := d.Show(i);
    if res != OK { return; }
    ghost var w: Sector := d.fs.win[..];
    FillSfn(d.fs.win, o, d.fn);
    SectorPlace(d.fs.geo, d.fs.size, d.fs.fat, d.sclust, i);
    Store(d, chain, i, SfnEntry(d.fn[..]), w);
  }

  method FillSfn(win: array<byte>, o: nat, fn: array<byte>)
    requires o + 32 <= win.Length && fn.Length == 12 && fn != win
    modifies win
    ensures win[..] == PutBytes(old(win[..]), o, SfnEntry(fn[..]))
  {
    forall i | 0 <= i < 32 { win[o + i] := 0; }
    forall i | 0 <= i < 11 { win[o + i] := fn[i]; }
    win[o + 12] := fn[11] as nat / 8 % 4 * 8;
  }

  /** The first j entries of a name of P parts. */
  ghost predicate FirstParts(es: seq<Entry>, n: seq<unit>, P: nat, sum: byte) {
    |es| <= P <= 20 && forall k :: 0 <= k < |es| ==> IsPart(es[k], n, P - k, sum)
  }

  lemma FirstPartsOn(es: seq<Entry>, n: seq<unit>, P: nat, sum: byte, e: Entry)
    requires FirstParts(es, n, P, sum) && |es| < P && IsPart(e, n, P - |es|, sum)
    ensures FirstParts(es + [e], n, P, sum)
  {
  }

  /** The loop of dir_register: store the P parts of the long name from entry a on. */
  method PutParts(d: Dir, ghost chain: seq<nat>, ghost a: nat, P: nat, sum: byte, ghost n: seq<unit>)
    returns (res: FResult, ghost es: seq<Entry>)
    requires d.Valid() && d.fs.geo.csize > 0 && d.At(a) && HasName(d.lfnbuf[..], n)
    requires P == Parts(|n|) > 0 && a + P < |d.Tab()|
    modifies d`dptr, d`clust, d`sect, d.fs`wflag, d.fs`winsect, d.fs`logical, d.fs.win, d.fs.disk
    ensures d.Valid() && (d.fs.disk.reliable ==> res == OK)
    ensures res == OK || res == INT_ERR || res == NO_FILE || res == DISK_ERR
    ensures res == OK ==> d.At(a + P) && |es| == P && FirstParts(es, n, P, sum)
    ensures res == OK && old(Sound(d, chain)) ==>
              a + P < |old(d.Tab())| && d.Tab() == Registered(old(d.Tab()), a, es)
              && OthersKept(d.fs.geo, d.fs.fat, old(d.fs.logical), chain, d.fs.fat, d.fs.logical, chain)
  {
    hide Fatfs.Valid, Fatfs.Consistent;
    hide Coherent, Mirrored, Decodes, Table, OthersKept, Chained, SectorAt, ClusterAt, Laid, FatLaid, Forest, HasName;
    hide IsPart, FirstParts, Registered;
    ghost var t, l, b, sound := d.Tab(), d.fs.logical, d.lfnbuf[..], Sound(d, chain);
    NameLength(b, n);
    TableStarts(d.fs.geo, d.fs.size);
    AllKept(d.fs.geo, d.fs.fat, l, chain);
    NoParts(t, a, n, P, sum);
    es, res := [], OK;
    var ord: nat := P;
    while ord != 0
      invariant d.Valid() && d.lfnbuf[..] == b && 0 <= ord <= P && |es| == P - ord && res == OK
      invariant d.At(a + |es|) && FirstParts(es, n, P, sum)
      invariant sound ==>
                  Sound(d, chain) && d.Tab() == Registered(t, a, es)
                  && OthersKept(d.fs.geo, d.fs.fat, l, chain, d.fs.fat, d.fs.logical, chain)
    {
      ghost var l1, i := d.fs.logical, a + |es|;
      ghost var e;
      res, e := PutPart(d, chain, i, ord, sum, n);
      if res != OK { return; }
      if sound { OthersKeptOn(d.fs.geo, d.fs.fat, l, chain, d.fs.fat, l1, chain, d.fs.fat, d.fs.logical, chain); }
      RegisteredOn(t, a, es, e);
      FirstPartsOn(es, n, P, sum, e);
      es := es + [e];
      Steady(d);
      EntryExists(d.fs.geo, d.fs.size, d.fs.fat, d.fs.logical, d.sclust, i + 1);
      res := d.Next(i);
      if res != OK { return; }
      ord := ord - 1;
    }
  }

  lemma NoParts(t: seq<Entry>, a: nat, n: seq<unit>, P: nat, sum: byte)
    requires a <= |t| && P <= 20
    ensures FirstParts([], n, P, sum) && Registered(t, a, []) == t
  {
    assert t[..a] + t[a..] == t;
  }

  lemma GrownEnded(t: seq<Entry>, t': seq<Entry>)
    requires NoneAfterEnd(t) && Grown(t, t')
    ensures NoneAfterEnd(t')
  {
  }

  /** The first byte of a short name marks no free entry and no dot entry. */
  predicate Marks(fn: seq<byte>) { |fn| > 0 && FirstByteOk(fn[0]) }

  /** A numbered short name: given the short name and the long one, the k-th candidate. */
  ghost predicate Numbers(numbered: (seq<byte>, nat) -> seq<byte>) {
    forall s, k :: |numbered(s, k)| == 11 && (|s| == 12 && Marks(s) ==> Marks(numbered(s, k)))
  }

  /** Find a number for a short name that does not stand for the whole name, so that it is no other's. */
  method Number(up: unit -> unit, numbered: (seq<byte>, nat) -> seq<byte>, d: Dir) returns (res: FResult)
    requires d.Valid() && Numbers(numbered) && Marks(d.fn[..])
    modifies d`dptr, d`clust, d`sect, d`blkOfs, d.fn, d.fs`wflag, d.fs`winsect, d.fs.win, d.fs.disk
    ensures d.Valid() && (d.fs.disk.reliable ==> res != DISK_ERR)
    ensures res == OK || res == DENIED || res == INT_ERR || res == DISK_ERR
    ensures res == INT_ERR ==> d.fs.geo.csize > 0 && !LinksGood(d.fs.geo, d.fs.fat, d.sclust)
    ensures res == OK ==>
              d.fn[11] == old(d.fn[11]) && Marks(d.fn[..])
              && Find(up, d.Tab(), Key(d.lfnbuf[..], d.fn[..11], false, true)) == Missing
  {
    hide Coherent, Mirrored, Decodes, Count, EntryAt, Find, Table, Laid, LinksGood;
    var sn := d.fn[..];
    d.fn[11] := 0x40;
    var n := 1;
    res := OK;
    while n < 100
      invariant d.Valid() && 1 <= n <= 100 && d.fn[11] == 0x40 && res == OK
    {
      Overwrite(d.fn, 0, numbered(sn, n));
      res := d.FindName(up);
      if res != OK { break; }
      n := n + 1;
    }
    if n == 100 { return DENIED; }
    if res != NO_FILE { return; }
    assert d.Wanted() == Key(d.lfnbuf[..], d.fn[..11], false, true);
    assert d.fn[..][0] == numbered(sn, n)[0];
    d.fn[11] := sn[11];
    res := OK;
  }

  /** What registering did: in the directory, stretched to t1 if need be, the first free block long
      enough, from entry a on, holds the entries of the name, and nothing else changed. */
  ghost predicate NowRegistered(d: Dir, t0: seq<Entry>, t1: seq<Entry>, a: nat, es: seq<Entry>, n: Name)
    reads d, d.fs, d.fs.win, d.fs.disk
  {
    d.Valid() && Grown(t0, t1) && IsBlock(es, n) && FreeBlock(t1, a, |es|) && AllocFrom(t1, 0, 0, |es|) == a + |es| - 1
    && d.Tab() == Registered(t1, a, es)
  }

  /** Allocate a block for P parts and a short name, and fill it: the second half of dir_register. */
  method AllocBlock(d: Dir, P: nat, ghost n: Name, ghost chain: seq<nat>)
    returns (res: FResult, ghost t1: seq<Entry>, ghost a: nat, ghost es: seq<Entry>, ghost chain': seq<nat>)
    requires d.Valid() && HasName(d.lfnbuf[..], n.units) && n.units != [] && P == PartsOf(n)
    requires Marks(d.fn[..]) && n.sfn == SfnEntry(d.fn[..])
    modifies d`dptr, d`clust, d`sect
    modifies d.fs`wflag, d.fs`winsect, d.fs`logical, d.fs`fat, d.fs`freeClst, d.fs`lastClst, d.fs`infoDue, d.fs.win
    modifies d.fs.disk
    ensures d.fs.Consistent() && (d.fs.disk.reliable ==> res == OK || res == DENIED || res == INT_ERR)
    ensures res != INVALID_NAME
    ensures res == OK ==> d.Valid() && d.fs.geo.csize > 0 && es != [] && d.At(a + |es| - 1)
    ensures old(Sound(d, chain)) && d.fs.disk.reliable ==> res == OK || res == DENIED
    ensures res == OK && old(Sound(d, chain) && NoneAfterEnd(d.Tab())) ==>
              Sound(d, chain') && NowRegistered(d, old(d.Tab()), t1, a, es, n)
              && OthersKept(d.fs.geo, old(d.fs.fat), old(d.fs.logical), chain, d.fs.fat, d.fs.logical, chain')
  {
    hide Fatfs.Valid, Fatfs.Consistent, NoneAfterEnd, Sound, FirstParts, SumOf, IsFree;
    hide Coherent, Mirrored, Decodes, Find, Table, Laid, OthersKept, Chained, Forest, Grown, SectorAt, ClusterAt;
    hide HasName, IsBlock, AllocFrom, FreeBlock, Registered, NowRegistered, SfnEntry;
    ghost var t0, at, sound := d.Tab(), 0, Sound(d, chain) && NoneAfterEnd(d.Tab());
    t1, a, es, chain' := t0, 0, [], chain;
    res, at, chain' := DirAlloc(d, P + 1, chain);
    if res != OK { return; }
    t1 := d.Tab();
    ghost var f1, l1 := d.fs.fat, d.fs.logical;
    res, a, es := FillFound(d, P, n, chain', t0, at);
    Steady(d);
    if res == OK && sound {
      OthersKeptOn(d.fs.geo, old(d.fs.fat), old(d.fs.logical), chain, f1, l1, chain', d.fs.fat, d.fs.logical, chain');
    }
  }

  /** Fill the block that dir_alloc found, whose last entry is at the cursor. */
  method FillFound(d: Dir, P: nat, ghost n: Name, ghost chain: seq<nat>, ghost t0: seq<Entry>, ghost at: nat)
    returns (res: FResult, ghost a: nat, ghost es: seq<Entry>)
    requires d.Valid() && d.fs.geo.csize > 0 && d.At(at) && P <= at < |d.Tab()|
    requires HasName(d.lfnbuf[..], n.units) && n.units != [] && P == PartsOf(n)
    requires Marks(d.fn[..]) && n.sfn == SfnEntry(d.fn[..])
    modifies d`dptr, d`clust, d`sect, d.fs`wflag, d.fs`winsect, d.fs`logical, d.fs.win, d.fs.disk
    ensures d.Valid() && (d.fs.disk.reliable ==> res == OK)
    ensures res == OK || res == INT_ERR || res == NO_FILE || res == DISK_ERR
    ensures old(Sound(d, chain)) ==> Sound(d, chain)
    ensures res == OK ==> es != [] && d.At(a + |es| - 1)
    ensures res == OK && old(Sound(d, chain)) && NoneAfterEnd(t0)
            && old(Grown(t0, d.Tab()) && AllocFrom(d.Tab(), 0, 0, P + 1) == at) ==>
              NowRegistered(d, t0, old(d.Tab()), a, es, n)
              && OthersKept(d.fs.geo, d.fs.fat, old(d.fs.logical), chain, d.fs.fat, d.fs.logical, chain)
  {
    hide Fatfs.Valid, Fatfs.Consistent, NoneAfterEnd, Sound, FirstParts, SumOf, IsFree;
    hide Coherent, Mirrored, Decodes, Find, Table, Laid, OthersKept, Chained, Forest, Grown, SectorAt, ClusterAt;
    hide HasName, IsBlock, AllocFrom, FreeBlock, Registered, NowRegistered, SfnEntry;
    ghost var t1, sound := d.Tab(), Sound(d, chain) && NoneAfterEnd(t0) && Grown(t0, d.Tab());
    NameUsable(d.lfnbuf[..], n.units);
    SfnLive(d.fn[..]);
    a := at - P;
    res, es := FillBlock(d, chain, a, P, n.units);
    if res == OK && sound && AllocFrom(t1, 0, 0, P + 1) == at {
      GrownEnded(t0, t1);
      BlockFound(t1, at, P + 1);
      NowIs(d, t0, t1, a, es, n, P);
    }
  }

  /** dir_register: make entries for the name in the buffer and its short name. */
  method DirRegister(up: unit -> unit, numbered: (seq<byte>, nat) -> seq<byte>, d: Dir, ghost n: seq<unit>,
                     ghost chain: seq<nat>)
    returns (res: FResult, ghost t1: seq<Entry>, ghost a: nat, ghost es: seq<Entry>, ghost chain': seq<nat>)
    requires d.Valid() && Numbers(numbered) && Marks(d.fn[..]) && HasName(d.lfnbuf[..], n) && n != []
    modifies d`dptr, d`clust, d`sect, d`blkOfs, d.fn
    modifies d.fs`wflag, d.fs`winsect, d.fs`logical, d.fs`fat, d.fs`freeClst, d.fs`lastClst, d.fs`infoDue, d.fs.win
    modifies d.fs.disk
    ensures d.fs.Consistent() && (d.fs.disk.reliable ==> res in {OK, DENIED, INVALID_NAME, INT_ERR})
    ensures old(Sound(d, chain)) && d.fs.disk.reliable ==> res != INT_ERR
    ensures res == INVALID_NAME <==> old(d.fn[11]) as nat / 32 % 2 == 1 || old(d.fn[11]) as nat / 128 == 1
    ensures res == OK ==>
              d.Valid() && d.fs.geo.csize > 0 && d.fn[11] == old(d.fn[11]) && Marks(d.fn[..])
              && es != [] && d.At(a + |es| - 1)
    ensures res == OK && old(Sound(d, chain) && NoneAfterEnd(d.Tab())) ==>
              Sound(d, chain')
              && NowRegistered(d, old(d.Tab()), t1, a, es, Name(n, d.fn[11] as nat / 2 % 2 == 1, SfnEntry(d.fn[..])))
              && OthersKept(d.fs.geo, old(d.fs.fat), old(d.fs.logical), chain, d.fs.fat, d.fs.logical, chain')
    ensures res == OK && d.fn[11] as nat % 2 == 1 ==>
              Find(up, old(d.Tab()), Key(d.lfnbuf[..], d.fn[..11], false, true)) == Missing
    ensures res == OK && d.fn[11] as nat % 2 == 0 ==> d.fn[..] == old(d.fn[..])
  {
    hide Fatfs.Consistent;
    hide Coherent, Mirrored, Decodes, Find, Table, Laid, OthersKept, Chained, Forest, Grown, SectorAt, ClusterAt;
    hide HasName, IsBlock;
    hide AllocFrom, FreeBlock, Registered, NowRegistered, SfnEntry, LinksGood;
    t1, a, es, chain' := d.Tab(), 0, [], chain;
    if Sound(d, chain) { SoundLinks(d, chain); }
    var flags: nat := d.fn[11];
    if flags / 32 % 2 == 1 || flags / 128 == 1 { res := INVALID_NAME; return; }
    var len := LengthOf(d.lfnbuf, n);
    if flags % 2 == 1 {
      res := Number(up, numbered, d);
      if res != OK { return; }
    }
    var P := if flags / 2 % 2 == 1 then (len + 12) / 13 else 0;
    res, t1, a, es, chain' := AllocBlock(d, P, Name(n, flags / 2 % 2 == 1, SfnEntry(d.fn[..])), chain);
  }

  /** Count the units of the name in the buffer. */
  method LengthOf(buf: array<unit>, ghost n: seq<unit>) returns (len: nat)
    requires buf.Length == 256 && HasName(buf[..], n)
    ensures len == |n|
  {
    len := 0;
    NameUnits(buf[..], n);
    while buf[len] != 0
      invariant 0 <= len <= |n| <= MAX_LFN
      decreases |n| - len
    {
      len := len + 1;
    }
  }

  lemma BlockFound(t: seq<Entry>, at: nat, want: nat)
    requires NoneAfterEnd(t) && want > 0 && AllocFrom(t, 0, 0, want) == at
    ensures want - 1 <= at < |t| && FreeBlock(t, at + 1 - want, want)
  {
    AllocFree(t, 0, 0, want);
  }

  /** Store the parts of the long name, if any, from entry a on, and the short name. */
  method FillBlock(d: Dir, ghost chain: seq<nat>, ghost a: nat, P: nat, ghost n: seq<unit>)
    returns (res: FResult, ghost es: seq<Entry>)
    requires d.Valid() && d.fs.geo.csize > 0 && d.At(a + P) && HasName(d.lfnbuf[..], n)
    requires (P == 0 || P == Parts(|n|)) && a + P < |d.Tab()|
    modifies d`dptr, d`clust, d`sect, d.fs`wflag, d.fs`winsect, d.fs`logical, d.fs.win, d.fs.disk
    ensures d.Valid() && (d.fs.disk.reliable ==> res == OK)
    ensures old(Sound(d, chain)) ==> Sound(d, chain)
    ensures res == OK || res == INT_ERR || res == NO_FILE || res == DISK_ERR
    ensures res == OK ==>
              d.At(a + P) && |es| == P + 1 && es[P] == SfnEntry(d.fn[..])
              && FirstParts(es[..P], n, P, SumOf(SfnEntry(d.fn[..]), 11))
    ensures res == OK && old(Sound(d, chain)) ==>
              |es| == P + 1 && a + P < |old(d.Tab())| && d.Tab() == Registered(old(d.Tab()), a, es)
              && OthersKept(d.fs.geo, d.fs.fat, old(d.fs.logical), chain, d.fs.fat, d.fs.logical, chain)
  {
    hide Coherent, Mirrored, Decodes, CountOk, Count, EntryAt, SumOf, Table, OthersKept, Chained, SectorAt, ClusterAt;
    hide Laid, FatLaid, Forest, HasName, FirstParts, Registered, SfnEntry;
    ghost var t, l, sound := d.Tab(), d.fs.logical, Sound(d, chain);
    NameLength(d.lfnbuf[..], n);
    SfnSum(d.fn[..]);
    NoParts(t, a, n, P, SumOf(SfnEntry(d.fn[..]), 11));
    AllKept(d.fs.geo, d.fs.fat, l, chain);
    TableStarts(d.fs.geo, d.fs.size);
    EntryExists(d.fs.geo, d.fs.size, d.fs.fat, d.fs.logical, d.sclust, a);
    res, es := OK, [];
    if P > 0 {
      res := d.Sdi(d.dptr - 32 * P);
      if res != OK { return; }
      var sum := SumSfn(d.fn, 0);
      assert d.fn[0..11] == d.fn[..11];
      res, es := PutParts(d, chain, a, P, sum, n);
      if res != OK { return; }
    }
    ghost var l1, ps := d.fs.logical, es;
    res := PutSfn(d, chain, a + P);
    if res != OK { return; }
    if sound { OthersKeptOn(d.fs.geo, d.fs.fat, l, chain, d.fs.fat, l1, chain, d.fs.fat, d.fs.logical, chain); }
    RegisteredOn(t, a, ps, SfnEntry(d.fn[..]));
    es := ps + [SfnEntry(d.fn[..])];
    assert es[..P] == ps;
  }

  lemma SfnSum(fn: seq<byte>)
    requires |fn| == 12
    ensures SumOf(SfnEntry(fn), 11) == SumOf(fn[..11], 11)
  {
    SumPrefix(SfnEntry(fn), 11, 11);
  }

  lemma SfnLive(fn: seq<byte>)
    requires |fn| == 12 && Marks(fn)
    ensures !IsFree(SfnEntry(fn)) && Attr(SfnEntry(fn)) == 0
  {
    assert SfnEntry(fn)[..11][0] == fn[..11][0];
  }

  lemma NameUsable(b: Buffer, n: seq<unit>)
    requires HasName(b, n) && n != []
    ensures 0 < |n| <= MAX_LFN && 0 !in n
  {
  }

  lemma NowIs(d: Dir, t0: seq<Entry>, t1: seq<Entry>, a: nat, es: seq<Entry>, n: Name, P: nat)
    requires d.Valid() && Grown(t0, t1) && FreeBlock(t1, a, P + 1) && AllocFrom(t1, 0, 0, P + 1) == a + P
    requires |es| == P + 1
    requires d.Tab() == Registered(t1, a, es) && P == PartsOf(n) && es[P] == n.sfn
    requires !IsFree(n.sfn) && Attr(n.sfn) == 0 && 0 < |n.units| <= MAX_LFN && 0 !in n.units
    requires FirstParts(es[..P], n.units, P, SumOf(n.sfn, 11))
    ensures NowRegistered(d, t0, t1, a, es, n)
  {
    hide Registered, AllocFrom, Table, FreeBlock, Grown;
  }

  // ---------------------------------------------------------------- after registering

  /** Entries of zeros at the end change no search. */
  lemma {:induction false} GrownFrom(up: unit -> unit, t: seq<Entry>, t': seq<Entry>, i: nat, st: Scan, key: Key)
    requires Grown(t, t') && i <= |t|
    ensures FindFrom(up, t', i, st, key) == FindFrom(up, t, i, st, key)
    decreases |t| - i
  {
    if i < |t| && See(up, st, t[i], i, key).Pass? { GrownFrom(up, t, t', i + 1, See(up, st, t[i], i, key).st, key); }
  }

  lemma GrownTidy(t: seq<Entry>, t': seq<Entry>)
    requires Tidy(t) && Grown(t, t')
    ensures Tidy(t')
  {
    forall i | 0 <= i < |t'| && IsLfn(t'[i]) ensures i + 1 < |t'| && (IsLfn(t'[i + 1]) || IsSfn(t'[i + 1])) {
      assert i < |t| && IsLfn(t[i]);
      assert t'[i + 1] == t[i + 1];
    }
  }

  /** A name that was missing is found where it was registered; every other name is found, or missing, as
      before, exactly unless the short name is taken for that of entries left before it; and the directory
      is still in order. */
  lemma AfterRegister(up: unit -> unit, t0: seq<Entry>, t1: seq<Entry>, a: nat, es: seq<Entry>, n: Name, key: Key,
                      m: seq<unit>)
    requires IsUpper(up) && Grown(t0, t1) && IsBlock(es, n) && FreeBlock(t1, a, |es|) && NoneAfterEnd(t0)
    requires HasName(key.buf, m)
    ensures var t, x := Registered(t1, a, es), Arriving(up, t1, a, key);
            && (NameMatches(up, n, m, key) && Find(up, t0, key) == Missing ==>
                  x.Pass? && Find(up, t, key) == Found(a + PartsOf(n), BlockTold(n, a, x.st, key)))
            && (!NameMatches(up, n, m, key) ==>
                  (Find(up, t, key) == Find(up, t0, key) <==> !(x.Pass? && Adopted(x.st, n, key))))
            && (x.Pass? && (a == 0 || !IsLfn(t1[a - 1]) || key.noLfn) ==>
                x.st.blk == NO_BLOCK && !Adopted(x.st, n, key))
            && (Tidy(t0) ==> Tidy(t)) && NoneAfterEnd(t)
  {
    hide See, NameMatches, Arriving;
    if Tidy(t0) { GrownTidy(t0, t1); }
    GrownEnded(t0, t1);
    GrownFrom(up, t0, t1, 0, RESET, key);
    RegisterKeeps(t1, a, es, n);
    if a == 0 || !IsLfn(t1[a - 1]) || key.noLfn { ArrivesReset(up, t1, a, key); }
    if NameMatches(up, n, m, key) {
      if Find(up, t0, key) == Missing { RegisteredIsFound(up, t1, a, es, n, m, key); }
    } else {
      OthersAsBefore(up, t1, a, es, n, m, key);
    }
  }
}
