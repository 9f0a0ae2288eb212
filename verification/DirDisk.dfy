/** Changing a directory on the disk: an entry replaced, a cleared cluster appended. */
module DirDisk {
  import opened Bytes
  import opened Geometry
  import opened FatSpec
  import opened Window
  import opened ChainSpec
  import opened FileSpec
  import opened Lfn
  import opened DirTable
  import opened Directory

  /** The directory is the static root, or a chain of clusters. */
  ghost predicate Chained(g: Geometry, f: seq<nat>, sclust: nat, chain: seq<nat>) {
    && |f| == g.nFatent
    && (IsStatic(g, sclust) ==> chain == [])
    && (!IsStatic(g, sclust) ==> IsChain(f, chain) && chain[0] == StartCluster(g, sclust))
  }

  lemma {:induction false} NthOfChain(f: seq<nat>, chain: seq<nat>, k: nat)
    requires IsChain(f, chain)
    ensures NthCluster(f, chain[0], k) == if k < |chain| then chain[k] else 0
    decreases k
  {
    if k > 0 {
      NthOfChain(f, chain, k - 1);
      if k - 1 < |chain| { ChainNext(f, chain, k - 1); }
    }
  }

  /** The clusters from c on, up to the k-th one reached. */
  function Path(f: seq<nat>, c: nat, k: nat): (s: seq<nat>)
    ensures |s| == k + 1 && forall j :: 0 <= j <= k ==> s[j] == NthCluster(f, c, j)
  {
    seq(k + 1, j requires 0 <= j <= k => NthCluster(f, c, j))
  }

  /** On any FAT, the clusters met before an end mark are a chain. */
  lemma PathIsChain(f: seq<nat>, c: nat, k: nat)
    requires var last := NthCluster(f, c, k); 2 <= last < |f| && f[last] >= |f|
    ensures IsChain(f, Path(f, c, k)) && Path(f, c, k)[0] == c
  {
    var s := Path(f, c, k);
    forall j | 0 <= j <= k ensures s[j] != 0 { NthStops(f, c, j, k); }
    forall j | 0 <= j < k ensures f[s[j]] == s[j + 1] { assert s[j + 1] != 0; }
  }

  function Least(a: nat, b: nat): nat { if a < b then a else b }

  /** Number of entries. */
  function EntryCount(g: Geometry, sclust: nat, chain: seq<nat>): nat {
    Least(if IsStatic(g, sclust) then g.nRootdir else 16 * SectorCount(g, chain), MAX_ENTRIES)
  }

  /** Entry i of a chain is in its sector i / 16. */
  lemma ChainSector(g: Geometry, f: seq<nat>, sclust: nat, chain: seq<nat>, i: nat)
    requires Chained(g, f, sclust, chain) && g.csize > 0 && g.database > 0 && (IsStatic(g, sclust) ==> g.dirbase > 0)
    ensures SectorAt(g, f, sclust, i) != 0 <==> i < EntryCount(g, sclust, chain)
    ensures i < EntryCount(g, sclust, chain) && !IsStatic(g, sclust) ==>
              AreClusters(g, chain) && i / 16 < SectorCount(g, chain)
              && SectorAt(g, f, sclust, i) == SectorOf(g, chain, i / 16)
  {
    if !IsStatic(g, sclust) {
      NthOfChain(f, chain, Quot(i / 16, g.csize));
      QuotAtLeast(i / 16, g.csize, |chain|);
    }
  }

  lemma CountOfChain(g: Geometry, end: nat, f: seq<nat>, sclust: nat, chain: seq<nat>)
    requires Chained(g, f, sclust, chain) && Laid(g, end)
    ensures Count(g, f, sclust) == EntryCount(g, sclust, chain)
  {
    var n, m := Count(g, f, sclust), EntryCount(g, sclust, chain);
    CountExact(g, f, sclust, n);
    CountExact(g, f, sclust, m);
    ChainSector(g, f, sclust, chain, n);
    ChainSector(g, f, sclust, chain, m);
    if n < m { CountExact(g, f, sclust, n); }
  }

  /** Different entries are in different sectors or at different offsets. */
  lemma EntriesApart(g: Geometry, f: seq<nat>, sclust: nat, chain: seq<nat>, i: nat, j: nat)
    requires Chained(g, f, sclust, chain) && g.csize > 0 && g.database > 0 && (IsStatic(g, sclust) ==> g.dirbase > 0)
    requires i < EntryCount(g, sclust, chain) && j < EntryCount(g, sclust, chain)
    requires SectorAt(g, f, sclust, i) == SectorAt(g, f, sclust, j)
    ensures i / 16 == j / 16
  {
    ChainSector(g, f, sclust, chain, i);
    ChainSector(g, f, sclust, chain, j);
    if !IsStatic(g, sclust) {
      ChainNoRepeat(f, chain);
      SectorOfInjective(g, chain, i / 16, j / 16);
    }
  }

  /** Putting e at the place of entry i changes that entry of the table. */
  lemma EntrySet(g: Geometry, end: nat, f: seq<nat>, l: seq<Sector>, sclust: nat, chain: seq<nat>, i: nat, e: Entry)
    requires Laid(g, end) && Chained(g, f, sclust, chain) && |l| == end && i < Count(g, f, sclust)
    ensures SectorAt(g, f, sclust, i) < end
    ensures var s := SectorAt(g, f, sclust, i);
            Table(g, end, f, l[s := PutBytes(l[s], 32 * (i % 16), e)], sclust) == Table(g, end, f, l, sclust)[i := e]
  {
    SectorPlace(g, end, f, sclust, i);
    CountOfChain(g, end, f, sclust, chain);
    var s := SectorAt(g, f, sclust, i);
    var w: Sector := PutBytes(l[s], 32 * (i % 16), e);
    var a, b := Table(g, end, f, l[s := w], sclust), Table(g, end, f, l, sclust)[i := e];
    forall j: nat | j < |a| ensures a[j] == b[j] {
      TableAt(g, end, f, l[s := w], sclust, j);
      TableAt(g, end, f, l, sclust, j);
      if SectorAt(g, f, sclust, j) == s {
        EntriesApart(g, f, sclust, chain, i, j);
        EntryPut(l[s], e, i, j);
      }
    }
  }

  lemma EntryPut(w: Sector, e: Entry, i: nat, j: nat)
    requires i / 16 == j / 16
    ensures EntryAt(PutBytes(w, 32 * (i % 16), e), 32 * (j % 16)) == if i == j then e else EntryAt(w, 32 * (j % 16))
  {
    var o, p := 32 * (i % 16), 32 * (j % 16);
    assert i != j ==> o + 32 <= p || p + 32 <= o;
  }

  // ---------------------------------------------------------------- stretching

  function Blank(): (e: Entry)
    ensures forall i :: 0 <= i < 32 ==> e[i] == 0
  {
    var s: seq<byte> := seq(32, i => 0);
    s
  }

  /** k entries of zeros. */
  function Zeros(k: nat): (z: seq<Entry>)
    ensures |z| == k && forall i :: 0 <= i < k ==> z[i] == Blank()
  {
    seq(k, i => Blank())
  }

  predicate IsZero(w: Sector) { forall i :: 0 <= i < 512 ==> w[i] == 0 }

  /** FAT f and disk l become f' and l', in which the directory's chain goes on with the cleared cluster r. */
  ghost predicate Appended(g: Geometry, end: nat, f: seq<nat>, l: seq<Sector>, sclust: nat, chain: seq<nat>, r: nat,
                           f': seq<nat>, l': seq<Sector>) {
    && Laid(g, end) && Chained(g, f, sclust, chain) && Chained(g, f', sclust, chain + [r]) && |l| == |l'| == end
    && !IsStatic(g, sclust) && r !in chain
    && (forall s :: 0 <= s < end && !g.InFat(s) && !g.InMirror(s) && !InCluster(g, r, s) ==> l'[s] == l[s])
    && (forall s :: 0 <= s < end && InCluster(g, r, s) ==> IsZero(l'[s]))
  }

  lemma EntryAppended(g: Geometry, end: nat, f: seq<nat>, l: seq<Sector>, sclust: nat, chain: seq<nat>, r: nat,
                      f': seq<nat>, l': seq<Sector>, i: nat)
    requires Appended(g, end, f, l, sclust, chain, r, f', l') && i < |Table(g, end, f', l', sclust)|
    ensures var t := Table(g, end, f, l, sclust);
            Table(g, end, f', l', sclust)[i] == if i < |t| then t[i] else Blank()
  {
    hide IsChain, FatLaid, HasFat, AreClusters, Owns, Quot, Rem, NthCluster, EntryAt, IsZero;
    CountOfChain(g, end, f, sclust, chain);
    CountOfChain(g, end, f', sclust, chain + [r]);
    TableAt(g, end, f', l', sclust, i);
    ChainSector(g, f', sclust, chain + [r], i);
    if i < |Table(g, end, f, l, sclust)| {
      TableAt(g, end, f, l, sclust, i);
      ChainSector(g, f, sclust, chain, i);
      OldSector(g, end, chain, r, i / 16);
      SectorPlace(g, end, f, sclust, i);
    } else {
      NewSector(g, chain, r, i / 16);
      ZeroEntry(l'[SectorAt(g, f', sclust, i)], i);
    }
  }

  /** Appending a cleared cluster appends entries of zeros. */
  lemma TableStretched(g: Geometry, end: nat, f: seq<nat>, l: seq<Sector>, sclust: nat, chain: seq<nat>, r: nat,
                       f': seq<nat>, l': seq<Sector>)
    requires Appended(g, end, f, l, sclust, chain, r, f', l')
    ensures var t, t' := Table(g, end, f, l, sclust), Table(g, end, f', l', sclust);
            |t| <= |t'| && t' == t + Zeros(|t'| - |t|)
    ensures Count(g, f, sclust) < MAX_ENTRIES ==> Count(g, f, sclust) < Count(g, f', sclust)
  {
    hide IsChain, FatLaid, HasFat, AreClusters, Owns, Quot, Rem, NthCluster, EntryAt, IsZero;
    CountOfChain(g, end, f, sclust, chain);
    CountOfChain(g, end, f', sclust, chain + [r]);
    assert SectorCount(g, chain + [r]) == SectorCount(g, chain) + g.csize;
    var t, t' := Table(g, end, f, l, sclust), Table(g, end, f', l', sclust);
    var z := t + Zeros(|t'| - |t|);
    forall i: nat | i < |t'| ensures t'[i] == z[i] { EntryAppended(g, end, f, l, sclust, chain, r, f', l', i); }
  }

  lemma ZeroEntry(w: Sector, i: nat)
    requires IsZero(w)
    ensures EntryAt(w, 32 * (i % 16)) == Blank()
  {
  }

  lemma OldSector(g: Geometry, end: nat, chain: seq<nat>, r: nat, q: nat)
    requires AreClusters(g, chain) && AreClusters(g, chain + [r]) && q < SectorCount(g, chain) && r !in chain
    ensures q < SectorCount(g, chain + [r]) && SectorOf(g, chain + [r], q) == SectorOf(g, chain, q)
    ensures !InCluster(g, r, SectorOf(g, chain, q))
  {
    assert chain <= chain + [r];
    SectorOfPrefix(g, chain, chain + [r], q);
    SectorOfOwned(g, chain, q);
    if InCluster(g, r, SectorOf(g, chain, q)) { ClustersApart(g, r, chain[Quot(q, g.csize)], SectorOf(g, chain, q)); }
  }

  lemma NewSector(g: Geometry, chain: seq<nat>, r: nat, q: nat)
    requires AreClusters(g, chain + [r]) && SectorCount(g, chain) <= q < SectorCount(g, chain + [r])
    ensures InCluster(g, r, SectorOf(g, chain + [r], q))
  {
    SectorOfOwned(g, chain + [r], q);
    QuotAtLeast(q, g.csize, |chain|);
  }
}
