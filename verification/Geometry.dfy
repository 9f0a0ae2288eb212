/** Where the areas of a FAT volume lie, and how mounting reads them off a boot sector. */
module Geometry {
  import opened Bytes

  /** Sectors n clusters of k sectors take: k * n, as a recursion so that proofs stay linear. */
  function ClusterSectors(k: nat, n: nat): nat {
    if n == 0 then 0 else k + ClusterSectors(k, n - 1)
  }

  lemma {:induction false} ClusterSectorsIsProduct(k: nat, n: nat)
    ensures ClusterSectors(k, n) == k * n
  {
    if n > 0 { ClusterSectorsIsProduct(k, n - 1); }
  }

  lemma {:induction false} ClusterSectorsMonotone(k: nat, m: nat, n: nat)
    requires m < n
    ensures ClusterSectors(k, m) + k <= ClusterSectors(k, n)
    decreases n
  {
    if m < n - 1 { ClusterSectorsMonotone(k, m, n - 1); }
  }

  /** n / k and n % k, likewise. */
  function Quot(n: nat, k: nat): nat
    requires k > 0
  {
    if n < k then 0 else 1 + Quot(n - k, k)
  }

  function Rem(n: nat, k: nat): (r: nat)
    requires k > 0
    ensures r < k
  {
    if n < k then n else Rem(n - k, k)
  }

  lemma {:induction false} QuotRem(n: nat, k: nat)
    requires k > 0
    ensures ClusterSectors(k, Quot(n, k)) + Rem(n, k) == n
  {
    if n >= k { QuotRem(n - k, k); }
  }

  lemma {:induction false} QuotUnique(n: nat, k: nat, q: nat, r: nat)
    requires k > 0 && r < k && n == ClusterSectors(k, q) + r
    ensures Quot(n, k) == q && Rem(n, k) == r
    decreases q
  {
    if q > 0 { QuotUnique(n - k, k, q - 1, r); }
  }

  lemma QuotIsDivision(n: nat, k: nat)
    requires k > 0
    ensures Quot(n, k) == n / k && Rem(n, k) == n % k
  {
    ClusterSectorsIsProduct(k, n / k);
    QuotUnique(n, k, n / k, n % k);
  }

  /** The number of the cluster of byte n, and the offset of its first byte, with the cluster size in bytes
      as a divisor and a mask. */
  lemma ByteCluster(n: nat, k: nat)
    requires k > 0
    ensures n / (512 * k) == Quot(n / 512, k)
    ensures n - n % (512 * k) == 512 * (n / 512 - Rem(n / 512, k)) == 512 * ClusterSectors(k, Quot(n / 512, k))
  {
    var q, r := Quot(n / 512, k), Rem(n / 512, k);
    QuotRem(n / 512, k);
    ClusterSectorsIsProduct(k, q);
    ClusterSectorsIsProduct(512 * k, q);
    assert 512 * (k * q) == (512 * k) * q;
    QuotUnique(n, 512 * k, q, 512 * r + n % 512);
    QuotIsDivision(n, 512 * k);
  }

  /** As many whole clusters as fit: the quotient is at least m exactly when m clusters fit. */
  lemma QuotAtLeast(n: nat, k: nat, m: nat)
    requires k > 0
    ensures m <= Quot(n, k) <==> ClusterSectors(k, m) <= n
  {
    var q := Quot(n, k);
    QuotRem(n, k);
    if m < q { ClusterSectorsMonotone(k, m, q); } else if q < m { ClusterSectorsMonotone(k, q, m); }
  }

  /** The number before a multiple of k belongs to the cluster before; any other to the same. */
  lemma QuotBefore(n: nat, k: nat)
    requires k > 0 && n > 0
    ensures Rem(n, k) == 0 ==> Quot(n, k) > 0 && Quot(n - 1, k) == Quot(n, k) - 1
    ensures Rem(n, k) != 0 ==> Quot(n - 1, k) == Quot(n, k)
  {
    QuotRem(n, k);
    var q, r := Quot(n, k), Rem(n, k);
    if r != 0 { QuotUnique(n - 1, k, q, r - 1); } else { QuotUnique(n - 1, k, q - 1, k - 1); }
  }

  /** A mask with a power of two less one is a remainder. */
  lemma MaskIsRemainder(n: bv32)
    ensures n & 0 == n % 1 && n & 1 == n % 2 && n & 3 == n % 4 && n & 7 == n % 8
    ensures n & 15 == n % 16 && n & 31 == n % 32 && n & 63 == n % 64 && n & 127 == n % 128
  {
  }

  datatype FatType = FAT12 | FAT16 | FAT32

  datatype Geometry = Geometry(
    fsType: FatType,
    nFats: nat,       // 1 or 2
    csize: nat,       // sectors per cluster
    nRootdir: nat,    // entries of the static root directory
    nFatent: nat,     // number of clusters + 2
    fsize: nat,       // sectors per FAT
    volbase: nat,
    fatbase: nat,
    dirbase: nat,     // root directory: first sector, or first cluster on FAT32
    database: nat)
  {
    ghost predicate InFat(s: int) { fatbase <= s < fatbase + fsize }

    /** Sectors of the second FAT, which is written but never read. */
    ghost predicate InMirror(s: int) { nFats == 2 && fatbase + fsize <= s < fatbase + 2 * fsize }

    ghost predicate InData(s: int) { nFatent >= 2 && database <= s < database + ClusterSectors(csize, nFatent - 2) }

    ghost predicate IsCluster(c: int) { 2 <= c < nFatent }

    function FatEnd(): nat { fatbase + (if nFats == 2 then 2 * fsize else fsize) }

    /** First sector of a cluster. */
    function ClusterBase(c: nat): nat
      requires 2 <= c
    {
      database + ClusterSectors(csize, c - 2)
    }
  }

  /** clst2sect: the first sector of a cluster, 0 for a number that is no cluster. */
  function Clst2Sect(g: Geometry, clst: nat): nat {
    if 2 <= clst < g.nFatent then g.ClusterBase(clst) else 0
  }

  /** Cluster c starts c - 2 clusters behind the start of the data area. */
  lemma ClusterStarts(g: Geometry, c: nat)
    ensures Clst2Sect(g, c) == if 2 <= c < g.nFatent then g.database + g.csize * (c - 2) else 0
  {
    if c >= 2 { ClusterSectorsIsProduct(g.csize, c - 2); }
  }

  const MAX_FAT12: nat := 0xFF5
  const MAX_FAT16: nat := 0xFFF5
  const MAX_FAT32: nat := 0x0FFF_FFF5

  predicate PowerOfTwo(n: nat) {
    n == 1 || n == 2 || n == 4 || n == 8 || n == 16 || n == 32 || n == 64 || n == 128
  }

  /** The test the code writes with a mask is the one written here with cases. */
  lemma PowerOfTwoMask(b: bv8)
    ensures (b != 0 && b & (b - 1) == 0)
       <==> (b == 1 || b == 2 || b == 4 || b == 8 || b == 16 || b == 32 || b == 64 || b == 128)
  {
  }

  function MaxClusters(t: FatType): nat {
    match t case FAT12 => MAX_FAT12 case FAT16 => MAX_FAT16 case FAT32 => MAX_FAT32
  }

  /** Value range of one FAT entry. */
  function EntryRange(t: FatType): nat {
    match t case FAT12 => 0x1000 case FAT16 => 0x1_0000 case FAT32 => 0x1000_0000
  }

  /** Bytes a FAT of n entries needs. */
  function FatBytes(t: FatType, n: nat): nat {
    match t
    case FAT12 => n * 3 / 2 + n % 2
    case FAT16 => n * 2
    case FAT32 => n * 4
  }

  /** The FATs hold an entry for every cluster and end before sector `end`. */
  ghost predicate HasFat(g: Geometry, end: int) {
    FatBytes(g.fsType, g.nFatent) <= 512 * g.fsize && g.FatEnd() <= end
  }

  /** What reading and writing the FATs rests on. */
  ghost predicate FatLaid(g: Geometry, end: int) {
    && (g.nFats == 1 || g.nFats == 2)
    && 3 <= g.nFatent <= MaxClusters(g.fsType) + 2
    && HasFat(g, end)
  }

  /** The reserved area, the FATs, the static root and the clusters follow one another,
      do not overlap, and end at or before `end`. */
  ghost predicate Laid(g: Geometry, end: int) {
    && FatLaid(g, end)
    && PowerOfTwo(g.csize)
    && g.volbase < g.fatbase
    && (if g.fsType == FAT32
        then g.nRootdir == 0 && g.database == g.FatEnd()
        else g.nRootdir > 0 && g.nRootdir % 16 == 0
             && g.dirbase == g.FatEnd() && g.database == g.dirbase + g.nRootdir / 16)
    && g.database + ClusterSectors(g.csize, g.nFatent - 2) <= end
  }
}
