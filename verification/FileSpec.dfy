/** Where the bytes of a file lie on the logical disk, and what changing sectors does to them. */
module FileSpec {
  import opened Bytes
  import opened Geometry
  import opened Window
  import opened ChainSpec

  /** All elements are cluster numbers of the volume. */
  ghost predicate AreClusters(g: Geometry, chain: seq<nat>) {
    g.csize > 0 && forall i :: 0 <= i < |chain| ==> 2 <= chain[i] < g.nFatent
  }

  ghost predicate Distinct(chain: seq<nat>) {
    forall i, j :: 0 <= i < j < |chain| ==> chain[i] != chain[j]
  }

  /** Number of sectors of a chain. */
  function SectorCount(g: Geometry, chain: seq<nat>): nat {
    ClusterSectors(g.csize, |chain|)
  }

  /** Sector s belongs to cluster c. */
  ghost predicate InCluster(g: Geometry, c: nat, s: int) {
    2 <= c && g.ClusterBase(c) <= s < g.ClusterBase(c) + g.csize
  }

  /** Sector s belongs to a cluster of the chain. */
  ghost predicate Owns(g: Geometry, chain: seq<nat>, s: int) {
    exists i :: 0 <= i < |chain| && InCluster(g, chain[i], s)
  }

  /** The disk sector that holds sector q of the file. */
  ghost function SectorOf(g: Geometry, chain: seq<nat>, q: nat): (s: nat)
    requires AreClusters(g, chain) && q < SectorCount(g, chain)
  {
    QuotAtLeast(q, g.csize, |chain|);
    g.ClusterBase(chain[Quot(q, g.csize)]) + Rem(q, g.csize)
  }

  /** By division: sector q lies q % csize sectors into the cluster number q / csize of the file. */
  lemma SectorOfIs(g: Geometry, chain: seq<nat>, q: nat)
    requires AreClusters(g, chain) && q < SectorCount(g, chain)
    ensures q / g.csize < |chain| && 2 <= chain[q / g.csize]
    ensures SectorOf(g, chain, q) == g.database + g.csize * (chain[q / g.csize] - 2) + q % g.csize
  {
    QuotAtLeast(q, g.csize, |chain|);
    QuotIsDivision(q, g.csize);
    ClusterSectorsIsProduct(g.csize, chain[q / g.csize] - 2);
  }

  lemma SectorOfOwned(g: Geometry, chain: seq<nat>, q: nat)
    requires AreClusters(g, chain) && q < SectorCount(g, chain)
    ensures Quot(q, g.csize) < |chain|
    ensures InCluster(g, chain[Quot(q, g.csize)], SectorOf(g, chain, q))
    ensures Owns(g, chain, SectorOf(g, chain, q))
  {
    QuotAtLeast(q, g.csize, |chain|);
  }

  /** Distinct clusters occupy disjoint sectors. */
  lemma ClustersApart(g: Geometry, c: nat, d: nat, s: int)
    requires g.csize > 0 && InCluster(g, c, s) && InCluster(g, d, s)
    ensures c == d
  {
    if c < d { ClusterSectorsMonotone(g.csize, c - 2, d - 2); }
    if d < c { ClusterSectorsMonotone(g.csize, d - 2, c - 2); }
  }

  /** Different sectors of a file are different sectors of the disk. */
  lemma SectorOfInjective(g: Geometry, chain: seq<nat>, p: nat, q: nat)
    requires AreClusters(g, chain) && Distinct(chain) && p < SectorCount(g, chain) && q < SectorCount(g, chain)
    requires SectorOf(g, chain, p) == SectorOf(g, chain, q)
    ensures p == q
  {
    SectorOfOwned(g, chain, p);
    SectorOfOwned(g, chain, q);
    ClustersApart(g, chain[Quot(p, g.csize)], chain[Quot(q, g.csize)], SectorOf(g, chain, p));
    QuotRem(p, g.csize);
    QuotRem(q, g.csize);
  }

  /** The sectors of a cluster lie in the data area. */
  lemma ClusterInData(g: Geometry, end: nat, c: nat, s: int)
    requires Laid(g, end) && 2 <= c < g.nFatent && InCluster(g, c, s)
    ensures g.InData(s) && 0 <= s < end && !g.InFat(s) && !g.InMirror(s)
  {
    ClusterSectorsMonotone(g.csize, c - 2, g.nFatent - 2);
  }

  lemma OwnedInData(g: Geometry, end: nat, chain: seq<nat>, s: int)
    requires Laid(g, end) && AreClusters(g, chain) && Owns(g, chain, s)
    ensures g.InData(s) && 0 <= s < end && !g.InFat(s) && !g.InMirror(s)
  {
    var i :| 0 <= i < |chain| && InCluster(g, chain[i], s);
    ClusterInData(g, end, chain[i], s);
  }

  /** Within a cluster, the next sectors of the file are the next sectors of the disk. */
  lemma SectorRun(g: Geometry, chain: seq<nat>, q: nat, j: nat)
    requires AreClusters(g, chain) && q < SectorCount(g, chain) && Rem(q, g.csize) + j < g.csize
    ensures q + j < SectorCount(g, chain) && SectorOf(g, chain, q + j) == SectorOf(g, chain, q) + j
  {
    QuotRem(q, g.csize);
    QuotUnique(q + j, g.csize, Quot(q, g.csize), Rem(q, g.csize) + j);
    QuotAtLeast(q, g.csize, |chain|);
    QuotAtLeast(q + j, g.csize, |chain|);
  }

  /** The sectors of a shorter chain are those of the longer one it begins. */
  lemma SectorOfPrefix(g: Geometry, a: seq<nat>, b: seq<nat>, q: nat)
    requires AreClusters(g, b) && a <= b && q < SectorCount(g, a)
    ensures AreClusters(g, a) && q < SectorCount(g, b) && SectorOf(g, a, q) == SectorOf(g, b, q)
  {
    QuotAtLeast(q, g.csize, |a|);
    QuotAtLeast(q, g.csize, |b|);
  }

  // ---------------------------------------------------------------- contents

  /** Sectors a file of `size` bytes reaches into. */
  function SectorsFor(size: nat): nat { (size + 511) / 512 }

  /** Clusters a file of `size` bytes needs. */
  function ClustersFor(g: Geometry, size: nat): nat
    requires g.csize > 0
  {
    if size == 0 then 0 else Quot((size - 1) / 512, g.csize) + 1
  }

  /** They are just enough. */
  lemma ClustersForEnough(g: Geometry, size: nat, n: nat)
    requires g.csize > 0
    ensures ClustersFor(g, size) <= n <==> size <= 512 * ClusterSectors(g.csize, n)
  {
    if size > 0 { QuotAtLeast((size - 1) / 512, g.csize, n); }
  }

  ghost predicate Covers(g: Geometry, chain: seq<nat>, size: nat) {
    AreClusters(g, chain) && SectorsFor(size) <= SectorCount(g, chain)
  }

  /** Byte p of the clusters of a chain, on disk v. */
  ghost function ByteAt(g: Geometry, v: seq<Sector>, chain: seq<nat>, p: nat): (b: byte)
    requires AreClusters(g, chain) && p / 512 < SectorCount(g, chain)
    requires forall s :: Owns(g, chain, s) ==> 0 <= s < |v|
  {
    SectorOfOwned(g, chain, p / 512);
    v[SectorOf(g, chain, p / 512)][p % 512]
  }

  ghost predicate OnDisk(g: Geometry, chain: seq<nat>, n: nat) {
    forall s :: Owns(g, chain, s) ==> 0 <= s < n
  }

  /** The bytes of a file: the first `size` bytes of its chain. */
  ghost function Content(g: Geometry, v: seq<Sector>, chain: seq<nat>, size: nat): (c: seq<byte>)
    requires Covers(g, chain, size) && OnDisk(g, chain, |v|)
    ensures |c| == size
  {
    seq(size, p requires 0 <= p < size => ByteAt(g, v, chain, p))
  }

  /** Disks that agree on the sectors of a chain hold the same bytes there. */
  lemma SameContent(g: Geometry, u: seq<Sector>, v: seq<Sector>, chain: seq<nat>, size: nat)
    requires Covers(g, chain, size) && OnDisk(g, chain, |v|) && |u| == |v|
    requires forall s :: Owns(g, chain, s) ==> u[s] == v[s]
    ensures Content(g, u, chain, size) == Content(g, v, chain, size)
  {
    forall p | 0 <= p < size ensures Content(g, u, chain, size)[p] == Content(g, v, chain, size)[p] {
      SectorOfOwned(g, chain, p / 512);
    }
  }

  /** A longer chain holds the same bytes at the start. */
  lemma ContentPrefix(g: Geometry, v: seq<Sector>, a: seq<nat>, b: seq<nat>, size: nat)
    requires Covers(g, a, size) && AreClusters(g, b) && a <= b && OnDisk(g, b, |v|)
    ensures Covers(g, b, size) && OnDisk(g, a, |v|)
    ensures Content(g, v, b, size) == Content(g, v, a, size)
  {
    if |a| < |b| { ClusterSectorsMonotone(g.csize, |a|, |b|); }
    forall s | Owns(g, a, s) ensures Owns(g, b, s) {
      var i :| 0 <= i < |a| && InCluster(g, a[i], s);
      assert b[i] == a[i];
    }
    forall p | 0 <= p < size ensures Content(g, v, b, size)[p] == Content(g, v, a, size)[p] {
      SectorOfPrefix(g, a, b, p / 512);
    }
  }

  lemma AllOnDisk(g: Geometry, end: nat, chain: seq<nat>)
    requires Laid(g, end) && AreClusters(g, chain)
    ensures OnDisk(g, chain, end)
    ensures forall s :: Owns(g, chain, s) ==> g.InData(s) && !g.InFat(s) && !g.InMirror(s)
  {
    forall s | Owns(g, chain, s) ensures 0 <= s < end && g.InData(s) && !g.InFat(s) && !g.InMirror(s) {
      OwnedInData(g, end, chain, s);
    }
  }

  lemma OwnersApart(g: Geometry, a: seq<nat>, b: seq<nat>, i: int)
    requires AreClusters(g, a) && Apart(a, b)
    ensures !(Owns(g, a, i) && Owns(g, b, i))
  {
    if Owns(g, a, i) && Owns(g, b, i) {
      var j :| 0 <= j < |a| && InCluster(g, a[j], i);
      var k :| 0 <= k < |b| && InCluster(g, b[k], i);
      ClustersApart(g, a[j], b[k], i);
      assert false;
    }
  }

  // ---------------------------------------------------------------- reading

  /** Bytes of the sector that holds file byte p are bytes of the file. */
  lemma SectorBytes(g: Geometry, v: seq<Sector>, chain: seq<nat>, size: nat, p: nat, n: nat)
    requires Covers(g, chain, size) && OnDisk(g, chain, |v|) && n > 0 && p % 512 + n <= 512 && p + n <= size
    ensures p / 512 < SectorCount(g, chain) && SectorOf(g, chain, p / 512) < |v|
    ensures v[SectorOf(g, chain, p / 512)][p % 512..p % 512 + n] == Content(g, v, chain, size)[p..p + n]
  {
    SectorOfOwned(g, chain, p / 512);
    var w := v[SectorOf(g, chain, p / 512)];
    var r, c := w[p % 512..p % 512 + n], Content(g, v, chain, size)[p..p + n];
    forall i: nat | i < n ensures r[i] == c[i] {
      assert (p + i) / 512 == p / 512 && (p + i) % 512 == p % 512 + i;
    }
  }

  lemma ByteOfRun(g: Geometry, v: seq<Sector>, chain: seq<nat>, size: nat, q: nat, n: nat, i: nat)
    requires Covers(g, chain, size) && OnDisk(g, chain, |v|) && 512 * (q + n) <= size && i < 512 * n
    requires Rem(q, g.csize) + n <= g.csize && q < SectorCount(g, chain) && SectorOf(g, chain, q) + n <= |v|
    ensures Run(v, SectorOf(g, chain, q), n)[i] == Content(g, v, chain, size)[512 * q + i]
  {
    SectorRun(g, chain, q, i / 512);
    assert (512 * q + i) / 512 == q + i / 512 && (512 * q + i) % 512 == i % 512;
  }

  /** Consecutive sectors read within one cluster are consecutive bytes of the file. */
  lemma RunBytes(g: Geometry, v: seq<Sector>, chain: seq<nat>, size: nat, q: nat, n: nat)
    requires Covers(g, chain, size) && OnDisk(g, chain, |v|) && n > 0 && 512 * (q + n) <= size
    requires Rem(q, g.csize) + n <= g.csize
    ensures q < SectorCount(g, chain) && SectorOf(g, chain, q) + n <= |v|
    ensures Run(v, SectorOf(g, chain, q), n) == Content(g, v, chain, size)[512 * q..512 * (q + n)]
  {
    SectorRun(g, chain, q, n - 1);
    SectorOfOwned(g, chain, q + n - 1);
    var r, c := Run(v, SectorOf(g, chain, q), n), Content(g, v, chain, size)[512 * q..512 * (q + n)];
    forall i: nat | i < 512 * n ensures r[i] == c[i] { ByteOfRun(g, v, chain, size, q, n, i); }
  }

  /** Laying one sector over a run that was read is reading the run with that sector replaced. */
  lemma RunOverlaid(l: seq<Sector>, s0: nat, n: nat, s: nat, b: Sector)
    requires s0 + n <= |l| && s0 <= s < s0 + n
    ensures PutBytes(Run(l, s0, n), 512 * (s - s0), b) == Run(l[s := b], s0, n)
  {
    var j, x, y := s - s0, PutBytes(Run(l, s0, n), 512 * (s - s0), b), Run(l[s := b], s0, n);
    forall i: nat | i < 512 * n ensures x[i] == y[i] {
      if i / 512 == j { assert i == 512 * j + i % 512; }
    }
  }

  // ---------------------------------------------------------------- writing

  /** c with d written over it from p on, growing as needed. */
  function Splice(c: seq<byte>, p: nat, d: seq<byte>): (r: seq<byte>)
    requires p <= |c|
    ensures |r| == if p + |d| > |c| then p + |d| else |c|
  {
    seq(if p + |d| > |c| then p + |d| else |c|, x requires 0 <= x < (if p + |d| > |c| then p + |d| else |c|) =>
      if p <= x < p + |d| then d[x - p] else c[x])
  }

  lemma SpliceTwice(c: seq<byte>, p: nat, a: seq<byte>, b: seq<byte>)
    requires p <= |c|
    ensures Splice(Splice(c, p, a), p + |a|, b) == Splice(c, p, a + b)
  {
  }

  lemma SpliceNone(c: seq<byte>, p: nat)
    requires p <= |c|
    ensures Splice(c, p, []) == c
  {
  }

  /** File bytes p .. p+|d|-1 of disk v are d, the others below `size` are those of disk u. */
  ghost predicate Rewrites(g: Geometry, u: seq<Sector>, v: seq<Sector>, chain: seq<nat>, size: nat, p: nat,
                           d: seq<byte>)
    requires Covers(g, chain, size) && Covers(g, chain, p + |d|) && OnDisk(g, chain, |u|) && |v| == |u| && p <= size
  {
    && (forall x :: p <= x < p + |d| ==> ByteAt(g, v, chain, x) == d[x - p])
    && (forall x :: 0 <= x < size && !(p <= x < p + |d|) ==> ByteAt(g, v, chain, x) == ByteAt(g, u, chain, x))
  }

  lemma ContentRewritten(g: Geometry, u: seq<Sector>, v: seq<Sector>, chain: seq<nat>, size: nat, p: nat, d: seq<byte>)
    requires Covers(g, chain, size) && Covers(g, chain, p + |d|) && OnDisk(g, chain, |u|) && |v| == |u| && p <= size
    requires Rewrites(g, u, v, chain, size, p, d)
    ensures var n := if p + |d| > size then p + |d| else size;
            Content(g, v, chain, n) == Splice(Content(g, u, chain, size), p, d)
  {
  }

  /** Replacing sector q of the file by w, which has d at offset off and below `size` is otherwise unchanged. */
  lemma SectorRewritten(g: Geometry, u: seq<Sector>, chain: seq<nat>, size: nat, q: nat, off: nat, d: seq<byte>,
                        w: Sector)
    requires Covers(g, chain, size) && Distinct(chain) && OnDisk(g, chain, |u|)
    requires q < SectorCount(g, chain) && off + |d| <= 512 && |d| > 0 && 512 * q + off <= size
    requires forall i :: off <= i < off + |d| ==> w[i] == d[i - off]
    requires OnDisk(g, chain, |u|) && Owns(g, chain, SectorOf(g, chain, q))
    requires forall i :: 0 <= i < 512 && !(off <= i < off + |d|) && 512 * q + i < size ==>
               w[i] == u[SectorOf(g, chain, q)][i]
    ensures Covers(g, chain, 512 * q + off + |d|)
    ensures Rewrites(g, u, u[SectorOf(g, chain, q) := w], chain, size, 512 * q + off, d)
  {
    var s, p := SectorOf(g, chain, q), 512 * q + off;
    var v := u[s := w];
    forall x | 0 <= x < size || p <= x < p + |d|
      ensures x / 512 < SectorCount(g, chain)
      ensures ByteAt(g, v, chain, x) == if p <= x < p + |d| then d[x - p] else ByteAt(g, u, chain, x)
    {
      SectorOfOwned(g, chain, x / 512);
      if SectorOf(g, chain, x / 512) == s { SectorOfInjective(g, chain, x / 512, q); }
    }
  }

  /** Writing whole sectors of data from sector q of the file on, within one cluster. */
  lemma RunRewritten(g: Geometry, u: seq<Sector>, chain: seq<nat>, size: nat, q: nat, data: seq<byte>)
    requires Covers(g, chain, size) && Distinct(chain) && OnDisk(g, chain, |u|) && 512 * q <= size
    requires |data| > 0 && |data| % 512 == 0 && q < SectorCount(g, chain) && Rem(q, g.csize) + |data| / 512 <= g.csize
    ensures Covers(g, chain, 512 * q + |data|) && SectorOf(g, chain, q) + |data| / 512 <= |u|
    ensures Rewrites(g, u, PutRun(u, SectorOf(g, chain, q), data), chain, size, 512 * q, data)
  {
    var s, n := SectorOf(g, chain, q), |data| / 512;
    SectorRun(g, chain, q, n - 1);
    SectorOfOwned(g, chain, q + n - 1);
    var v := PutRun(u, s, data);
    forall x | 0 <= x < size || 512 * q <= x < 512 * q + |data|
      ensures x / 512 < SectorCount(g, chain)
      ensures ByteAt(g, v, chain, x)
              == if 512 * q <= x < 512 * q + |data| then data[x - 512 * q] else ByteAt(g, u, chain, x)
    {
      RunByte(g, u, chain, q, data, x);
    }
  }

  lemma RunByte(g: Geometry, u: seq<Sector>, chain: seq<nat>, q: nat, data: seq<byte>, x: nat)
    requires AreClusters(g, chain) && Distinct(chain) && OnDisk(g, chain, |u|)
    requires |data| > 0 && |data| % 512 == 0 && q < SectorCount(g, chain) && Rem(q, g.csize) + |data| / 512 <= g.csize
    requires SectorOf(g, chain, q) + |data| / 512 <= |u|
    requires x / 512 < SectorCount(g, chain) || 512 * q <= x < 512 * q + |data|
    ensures x / 512 < SectorCount(g, chain)
    ensures ByteAt(g, PutRun(u, SectorOf(g, chain, q), data), chain, x)
         == if 512 * q <= x < 512 * q + |data| then data[x - 512 * q] else ByteAt(g, u, chain, x)
  {
    var s, n, y := SectorOf(g, chain, q), |data| / 512, x / 512;
    if q <= y < q + n {
      SectorRun(g, chain, q, y - q);
    } else {
      SectorOfOwned(g, chain, y);
      var t := SectorOf(g, chain, y);
      if s <= t < s + n {
        SectorRun(g, chain, q, t - s);
        SectorOfInjective(g, chain, q + t - s, y);
      }
    }
  }
}
