/** The geometry part of mounting a volume: from a boot sector to the layout of its areas. */
module Mount {
  import opened Bytes
  import opened Geometry

  datatype Mounted = NoFilesystem | Volume(geo: Geometry)

  /** The fields of a boot sector that decide the geometry. */
  datatype Bpb = Bpb(
    sectorSize: nat, secPerClus: nat, reserved: nat, numFats: nat, rootEntries: nat,
    total16: nat, fatSize16: nat, total32: nat, fatSize32: nat, version: nat, rootCluster: nat)
  {
    predicate Valid() {
      && sectorSize < 0x1_0000 && secPerClus < 0x100 && reserved < 0x1_0000 && numFats < 0x100
      && rootEntries < 0x1_0000 && total16 < 0x1_0000 && fatSize16 < 0x1_0000
      && total32 < DWORD_RANGE && fatSize32 < DWORD_RANGE && version < 0x1_0000 && rootCluster < DWORD_RANGE
    }

    function FatSize(): nat { if fatSize16 != 0 then fatSize16 else fatSize32 }

    function Total(): nat { if total16 != 0 then total16 else total32 }

    /** Sectors of all the FATs. */
    function FatArea(): nat { if numFats == 2 then 2 * FatSize() else FatSize() }

    /** Reserved area, FATs and static root, added up without wrapping. */
    function SystemSectors(): nat { reserved + FatArea() + rootEntries / 16 }

    /** Whole clusters of k sectors in what is left of the volume. */
    function Clusters(): nat
      requires secPerClus > 0
    {
      if Total() < SystemSectors() then 0 else Quot(Total() - SystemSectors(), secPerClus)
    }

    /** No size wraps a 32-bit word: the declared system areas fit the declared volume, and its
        clusters end within the 32-bit sector numbers. */
    predicate FitsLba(bsect: nat)
      requires secPerClus > 0
    {
      SystemSectors() <= Total()
      && bsect + SystemSectors() + ClusterSectors(secPerClus, Clusters()) <= DWORD_RANGE
    }
  }

  function ReadBpb(b: Sector): (p: Bpb)
    ensures p.Valid()
  {
    Bpb(LoadWord(b, 11), b[13], LoadWord(b, 14), b[16], LoadWord(b, 17), LoadWord(b, 19), LoadWord(b, 22),
        LoadDword(b, 32), LoadDword(b, 36), LoadWord(b, 42), LoadDword(b, 44))
  }

  /** The fields mounting computes, with 32-bit sums. */
  function MountFields(p: Bpb, bsect: dword): (g: Geometry)
    requires p.secPerClus > 0
  {
    var fasize := p.FatArea() % 0x1_0000_0000;
    var sysect := (p.reserved + fasize + p.rootEntries / 16) % 0x1_0000_0000;
    var nclst := if p.Total() < sysect then 0 else Quot(p.Total() - sysect, p.secPerClus);
    var fmt := if nclst <= MAX_FAT12 then FAT12 else if nclst <= MAX_FAT16 then FAT16 else FAT32;
    var fatbase := (bsect + p.reserved) % 0x1_0000_0000;
    var dirbase := if fmt == FAT32 then p.rootCluster else (fatbase + fasize) % 0x1_0000_0000;
    Geometry(fmt, p.numFats, p.secPerClus, p.rootEntries, nclst + 2, p.FatSize(),
             bsect, fatbase, dirbase, (bsect + sysect) % 0x1_0000_0000)
  }

  /** The checks mounting makes before it accepts those fields. */
  predicate MountChecks(p: Bpb, g: Geometry) {
    && p.sectorSize == SECTOR_SIZE
    && (p.numFats == 1 || p.numFats == 2)
    && PowerOfTwo(p.secPerClus)
    && p.rootEntries % 16 == 0
    && p.reserved != 0
    && (p.reserved + p.FatArea() % 0x1_0000_0000 + p.rootEntries / 16) % 0x1_0000_0000 <= p.Total()
    && 2 < g.nFatent <= MAX_FAT32 + 2
    && (if g.fsType == FAT32 then p.version == 0 && p.rootEntries == 0 else p.rootEntries != 0)
    && (FatBytes(g.fsType, g.nFatent) + 511) / 512 <= p.FatSize()
  }

  /** The fields, byte by byte. */
  function FieldBytes(b: Sector): Bpb {
    Bpb(sectorSize := b[11] as nat + 0x100 * b[12] as nat,
        secPerClus := b[13],
        reserved := b[14] as nat + 0x100 * b[15] as nat,
        numFats := b[16],
        rootEntries := b[17] as nat + 0x100 * b[18] as nat,
        total16 := b[19] as nat + 0x100 * b[20] as nat,
        fatSize16 := b[22] as nat + 0x100 * b[23] as nat,
        total32 := b[32] as nat + 0x100 * b[33] as nat + 0x1_0000 * b[34] as nat + 0x100_0000 * b[35] as nat,
        fatSize32 := b[36] as nat + 0x100 * b[37] as nat + 0x1_0000 * b[38] as nat + 0x100_0000 * b[39] as nat,
        version := b[42] as nat + 0x100 * b[43] as nat,
        rootCluster := b[44] as nat + 0x100 * b[45] as nat + 0x1_0000 * b[46] as nat + 0x100_0000 * b[47] as nat)
  }

  lemma FieldsRead(b: Sector)
    ensures ReadBpb(b) == FieldBytes(b)
  {
  }

  /** A volume with these fields, found at sector bsect, is accepted with geometry g. */
  predicate Tells(p: Bpb, bsect: dword, g: Geometry) {
    var fats := p.numFats * p.FatSize() % 0x1_0000_0000;
    var system := (p.reserved + fats + p.rootEntries / 16) % 0x1_0000_0000;
    && p.sectorSize == 512
    && g.csize == p.secPerClus && PowerOfTwo(g.csize)
    && g.nFats == p.numFats && (g.nFats == 1 || g.nFats == 2)
    && g.nRootdir == p.rootEntries && g.nRootdir % 16 == 0
    && g.fsize == p.FatSize()
    && g.volbase == bsect
    && p.reserved != 0 && g.fatbase == (bsect + p.reserved) % 0x1_0000_0000
    && g.database == (bsect + system) % 0x1_0000_0000
    && system <= p.Total() && g.nFatent == (p.Total() - system) / g.csize + 2
    && 3 <= g.nFatent <= 0x0FFF_FFF7
    && g.fsType == (if g.nFatent <= 0xFF7 then FAT12 else if g.nFatent <= 0xFFF7 then FAT16 else FAT32)
    && (if g.fsType == FAT32 then p.version == 0 && g.nRootdir == 0 && g.dirbase == p.rootCluster
        else g.nRootdir != 0 && g.dirbase == (g.fatbase + fats) % 0x1_0000_0000)
    && 512 * g.fsize >= (match g.fsType
                         case FAT12 => (3 * g.nFatent + 1) / 2
                         case FAT16 => 2 * g.nFatent
                         case FAT32 => 4 * g.nFatent)
  }

  /** As many sectors as the entries need. */
  lemma FatRoom(t: FatType, n: nat, fsize: nat)
    ensures (FatBytes(t, n) + 511) / 512 <= fsize <==> FatBytes(t, n) <= 512 * fsize
    ensures FatBytes(t, n) == match t case FAT12 => (3 * n + 1) / 2 case FAT16 => 2 * n case FAT32 => 4 * n
  {
  }

  /** The sums and the number of clusters of the two forms. */
  lemma SameSums(p: Bpb)
    requires p.numFats == 1 || p.numFats == 2
    ensures p.numFats * p.FatSize() == p.FatArea()
    ensures p.secPerClus > 0 ==>
              var system := (p.reserved + p.FatArea() % 0x1_0000_0000 + p.rootEntries / 16) % 0x1_0000_0000;
              system <= p.Total() ==>
                Quot(p.Total() - system, p.secPerClus) == (p.Total() - system) / p.secPerClus
  {
    hide Quot;
    if p.secPerClus > 0 {
      var system := (p.reserved + p.FatArea() % 0x1_0000_0000 + p.rootEntries / 16) % 0x1_0000_0000;
      if system <= p.Total() { QuotIsDivision(p.Total() - system, p.secPerClus); }
    }
  }

  lemma ChecksTell(p: Bpb, bsect: dword)
    requires p.secPerClus > 0 && MountChecks(p, MountFields(p, bsect))
    ensures Tells(p, bsect, MountFields(p, bsect))
  {
    hide Quot, FatBytes, PowerOfTwo;
    SameSums(p);
    var h := MountFields(p, bsect);
    FatRoom(h.fsType, h.nFatent, p.FatSize());
  }

  lemma ToldChecks(p: Bpb, bsect: dword, g: Geometry)
    requires Tells(p, bsect, g)
    ensures p.secPerClus > 0 && MountChecks(p, MountFields(p, bsect)) && g == MountFields(p, bsect)
  {
    hide Quot, FatBytes;
    SameSums(p);
    FatRoom(g.fsType, g.nFatent, p.FatSize());
    assert g == MountFields(p, bsect);
  }

  /** The FAT12/16/32 branch of mounting, on boot sector b found at sector bsect. */
  method MountGeometry(b: Sector, bsect: dword) returns (m: Mounted)
    ensures m.Volume? ==> Tells(FieldBytes(b), bsect, m.geo)
    ensures m.NoFilesystem? ==> forall g :: !Tells(FieldBytes(b), bsect, g)
    ensures var p := ReadBpb(b);
            m == if p.secPerClus > 0 && MountChecks(p, MountFields(p, bsect)) then Volume(MountFields(p, bsect))
                 else NoFilesystem
  {
    hide ReadBpb, Quot, Tells;
    var p := ReadBpb(b);
    FieldsRead(b);
    if p.secPerClus > 0 && MountChecks(p, MountFields(p, bsect)) { ChecksTell(p, bsect); }
    forall g | Tells(p, bsect, g) ensures p.secPerClus > 0 && MountChecks(p, MountFields(p, bsect)) {
      ToldChecks(p, bsect, g);
    }
    if p.sectorSize != SECTOR_SIZE { return NoFilesystem; }
    var fasize := p.fatSize16;
    if fasize == 0 { fasize := p.fatSize32; }
    var fsize := fasize;
    if p.numFats != 1 && p.numFats != 2 { return NoFilesystem; }
    assert fasize * p.numFats == p.FatArea();
    fasize := fasize * p.numFats % 0x1_0000_0000;
    if !PowerOfTwo(p.secPerClus) { return NoFilesystem; }
    if p.rootEntries % 16 != 0 { return NoFilesystem; }
    var tsect := p.total16;
    if tsect == 0 { tsect := p.total32; }
    if p.reserved == 0 { return NoFilesystem; }
    var sysect := (p.reserved + fasize + p.rootEntries / 16) % 0x1_0000_0000;
    if tsect < sysect { return NoFilesystem; }
    var nclst := Quot(tsect - sysect, p.secPerClus);
    if nclst == 0 || nclst > MAX_FAT32 { return NoFilesystem; }
    var fmt := if nclst <= MAX_FAT12 then FAT12 else if nclst <= MAX_FAT16 then FAT16 else FAT32;
    var nFatent := nclst + 2;
    var fatbase := (bsect + p.reserved) % 0x1_0000_0000;
    var database := (bsect + sysect) % 0x1_0000_0000;
    ghost var h := MountFields(p, bsect);
    assert h.fsType == fmt && h.nFatent == nFatent && h.fsize == fsize;
    assert h.fatbase == fatbase && h.database == database;
    var dirbase, szbfat;
    if fmt == FAT32 {
      if p.version != 0 { return NoFilesystem; }
      if p.rootEntries != 0 { return NoFilesystem; }
      dirbase := p.rootCluster;
      szbfat := nFatent * 4;
    } else {
      if p.rootEntries == 0 { return NoFilesystem; }
      dirbase := (fatbase + fasize) % 0x1_0000_0000;
      szbfat := if fmt == FAT16 then nFatent * 2 else nFatent * 3 / 2 + nFatent % 2;
    }
    if fsize < (szbfat + (SECTOR_SIZE - 1)) / 512 { return NoFilesystem; }
    return Volume(Geometry(fmt, p.numFats, p.secPerClus, p.rootEntries, nFatent, fsize, bsect, fatbase, dirbase,
        database));
  }

  /** Geometry g holds the sizes the boot sector declares: as many clusters as fit the rest. */
  ghost predicate Describes(p: Bpb, bsect: nat, g: Geometry) {
    && g.nFats == p.numFats && g.csize == p.secPerClus && g.nRootdir == p.rootEntries && g.fsize == p.FatSize()
    && g.volbase == bsect && g.fatbase == bsect + p.reserved
    && (g.fsType == FAT32 ==> g.dirbase == p.rootCluster)
    && g.fsType == (if g.nFatent - 2 <= MAX_FAT12 then FAT12 else if g.nFatent - 2 <= MAX_FAT16 then FAT16 else FAT32)
    && 2 <= g.nFatent
    && ClusterSectors(g.csize, g.nFatent - 2) + p.SystemSectors() <= p.Total()
         < ClusterSectors(g.csize, g.nFatent - 1) + p.SystemSectors()
  }

  /** What the checks say of the fields, sums still wrapped. */
  lemma Accepted(p: Bpb, bsect: dword, g: Geometry)
    requires p.Valid() && p.secPerClus > 0 && g == MountFields(p, bsect) && MountChecks(p, g)
    ensures FatBytes(g.fsType, g.nFatent) <= 512 * g.fsize && 3 <= g.nFatent <= MaxClusters(g.fsType) + 2
    ensures g.FatEnd() == g.fatbase + p.FatArea()
  {
  }

  /** A sum that wraps breaks the order of the areas. */
  lemma MountOverflow(p: Bpb, bsect: dword, g: Geometry)
    requires p.Valid() && p.secPerClus > 0 && g == MountFields(p, bsect) && MountChecks(p, g)
    requires bsect + p.SystemSectors() >= DWORD_RANGE
    ensures !Laid(g, DWORD_RANGE)
  {
    Accepted(p, bsect, g);
    if bsect + p.reserved >= DWORD_RANGE {
      assert g.fatbase < bsect;
    } else {
      assert g.fatbase == bsect + p.reserved;
      assert g.database < DWORD_RANGE && g.dirbase < DWORD_RANGE;
    }
  }

  lemma NoWrap(n: nat)
    requires n < 0x1_0000_0000
    ensures n % 0x1_0000_0000 == n
  {
  }

  /** Without a wrap of the system areas, the fields are the plain sums. */
  lemma MountSums(p: Bpb, bsect: dword)
    requires p.Valid() && p.secPerClus > 0 && bsect + p.SystemSectors() < DWORD_RANGE && p.SystemSectors() <= p.Total()
    ensures MountFields(p, bsect) == PlainFields(p, bsect)
  {
    NoWrap(p.FatArea());
    NoWrap(p.SystemSectors());
    NoWrap(bsect + p.reserved);
    NoWrap(bsect + p.reserved + p.FatArea());
    NoWrap(bsect + p.SystemSectors());
  }

  /** The fields with unbounded sums. */
  function PlainFields(p: Bpb, bsect: dword): (g: Geometry)
    requires p.secPerClus > 0
  {
    var nclst := p.Clusters();
    var fmt := if nclst <= MAX_FAT12 then FAT12 else if nclst <= MAX_FAT16 then FAT16 else FAT32;
    Geometry(fmt, p.numFats, p.secPerClus, p.rootEntries, nclst + 2, p.FatSize(), bsect, bsect + p.reserved,
             if fmt == FAT32 then p.rootCluster else bsect + p.reserved + p.FatArea(), bsect + p.SystemSectors())
  }

  lemma SystemFits(p: Bpb, bsect: dword, g: Geometry)
    requires p.Valid() && p.secPerClus > 0 && g == MountFields(p, bsect) && MountChecks(p, g)
    requires bsect + p.SystemSectors() < DWORD_RANGE
    ensures p.SystemSectors() <= p.Total()
  {
    NoWrap(p.FatArea());
    NoWrap(p.SystemSectors());
  }

  lemma MountExact(p: Bpb, bsect: dword, g: Geometry)
    requires p.Valid() && p.secPerClus > 0 && g == MountFields(p, bsect) && MountChecks(p, g)
    requires bsect + p.SystemSectors() < DWORD_RANGE
    ensures forall end: nat :: Laid(g, end) <==> g.database + ClusterSectors(g.csize, g.nFatent - 2) <= end
    ensures Describes(p, bsect, g)
  {
    Accepted(p, bsect, g);
    SystemFits(p, bsect, g);
    MountSums(p, bsect);
    var n := p.Total() - p.SystemSectors();
    QuotAtLeast(n, g.csize, g.nFatent - 2);
    QuotAtLeast(n, g.csize, g.nFatent - 1);
  }

  lemma OverflowDoesNotFit(p: Bpb, bsect: dword, g: Geometry)
    requires p.Valid() && p.secPerClus > 0 && g == MountFields(p, bsect) && MountChecks(p, g)
    requires bsect + p.SystemSectors() >= DWORD_RANGE
    ensures !p.FitsLba(bsect)
  {
    if p.SystemSectors() <= p.Total() {
      NoWrap(p.FatArea());
      NoWrap(p.SystemSectors());
      assert g.nFatent - 2 == p.Clusters();
      ClusterSectorsMonotone(p.secPerClus, 0, p.Clusters());
    }
  }

  /** An accepted volume is laid out in disjoint areas inside the 32-bit sector numbers exactly when
      none of the declared sizes wraps; then it lies inside the volume its boot sector declares. */
  lemma MountLaid(p: Bpb, bsect: dword, g: Geometry)
    requires p.Valid() && p.secPerClus > 0 && g == MountFields(p, bsect) && MountChecks(p, g)
    ensures Laid(g, DWORD_RANGE) <==> p.FitsLba(bsect)
    ensures p.FitsLba(bsect) ==> Laid(g, bsect + p.Total()) && Describes(p, bsect, g)
  {
    if bsect + p.SystemSectors() < DWORD_RANGE {
      MountExact(p, bsect, g);
      SystemFits(p, bsect, g);
      MountSums(p, bsect);
    } else {
      MountOverflow(p, bsect, g);
      OverflowDoesNotFit(p, bsect, g);
    }
  }

  /** Every boot sector of a volume that fits, with the geometry it declares, is accepted with that geometry. */
  lemma MountComplete(p: Bpb, bsect: dword, g: Geometry)
    requires p.Valid() && p.secPerClus > 0 && Laid(g, DWORD_RANGE) && Describes(p, bsect, g)
    requires p.sectorSize == SECTOR_SIZE && (g.fsType == FAT32 ==> p.version == 0)
    ensures MountFields(p, bsect) == g && MountChecks(p, g)
  {
    var n := p.Total() - p.SystemSectors();
    QuotAtLeast(n, g.csize, g.nFatent - 2);
    QuotAtLeast(n, g.csize, g.nFatent - 1);
    MountSums(p, bsect);
    NoWrap(p.FatArea());
    NoWrap(p.SystemSectors());
  }

  /** Wrapping is real: two FATs of 2^31 + 1 sectors each add up to two sectors, the boot sector is
      accepted, and the second FAT lies outside the volume. */
  lemma MountWraps()
    ensures var p := Bpb(512, 1, 1, 2, 0, 0, 0, 0x2_0000, 0x8000_0001, 0, 2);
            p.Valid() && MountChecks(p, MountFields(p, 0)) && !Laid(MountFields(p, 0), DWORD_RANGE)
  {
    hide Quot, ClusterSectors;
    var p := Bpb(512, 1, 1, 2, 0, 0, 0, 0x2_0000, 0x8000_0001, 0, 2);
    QuotIsDivision(0x2_0000 - 3, 1);
    assert MountFields(p, 0) == Geometry(FAT32, 2, 1, 0, 0x2_0000 - 1, 0x8000_0001, 0, 1, 2, 3);
    MountOverflow(p, 0, MountFields(p, 0));
  }

  /** A FAT32 volume with one reserved sector is accepted and laid out properly; the sector after its boot
      sector, where FSInfo goes, is the first of its first FAT. */
  lemma MountOneReserved()
    ensures var p := Bpb(512, 1, 1, 1, 0, 0, 0, 0x2_0000, 0x400, 0, 2);
            p.Valid() && MountChecks(p, MountFields(p, 0))
            && var g := MountFields(p, 0); g.fsType == FAT32 && Laid(g, 0x2_0000) && g.volbase + 1 == g.fatbase
  {
    var p := Bpb(512, 1, 1, 1, 0, 0, 0, 0x2_0000, 0x400, 0, 2);
    hide Quot, ClusterSectors;
    QuotIsDivision(0x2_0000 - 0x401, 1);
    ClusterSectorsIsProduct(1, 0x2_0000 - 0x401);
    assert MountFields(p, 0) == Geometry(FAT32, 1, 1, 0, 0x2_0000 - 0x401 + 2, 0x400, 0, 1, 2, 0x401);
  }

  /** A boot sector of four rows of 16 bytes, zeros, and the signature. */
  function BootOf(r0: seq<byte>, r1: seq<byte>, r2: seq<byte>, r3: seq<byte>): (b: Sector)
    requires |r0| == |r1| == |r2| == |r3| == 16
    ensures b[..16] == r0 && b[16..32] == r1 && b[32..48] == r2 && b[48..64] == r3 && b[510] == 0x55 && b[511] == 0xAA
    ensures forall i :: 64 <= i < 510 ==> b[i] == 0
    ensures forall i :: 0 <= i < 16 ==> b[i] == r0[i] && b[16 + i] == r1[i] && b[32 + i] == r2[i]
  {
    r0 + r1 + r2 + r3 + seq(446, i => 0) + [0x55, 0xAA]
  }

  lemma RowFields(r0: seq<byte>, r1: seq<byte>, r2: seq<byte>, r3: seq<byte>)
    requires |r0| == |r1| == |r2| == |r3| == 16
    ensures FieldBytes(BootOf(r0, r1, r2, r3))
         == Bpb(r0[11] as nat + 0x100 * r0[12] as nat, r0[13], r0[14] as nat + 0x100 * r0[15] as nat, r1[0],
                r1[1] as nat + 0x100 * r1[2] as nat, r1[3] as nat + 0x100 * r1[4] as nat,
                r1[6] as nat + 0x100 * r1[7] as nat,
                r2[0] as nat + 0x100 * r2[1] as nat + 0x1_0000 * r2[2] as nat + 0x100_0000 * r2[3] as nat,
                r2[4] as nat + 0x100 * r2[5] as nat + 0x1_0000 * r2[6] as nat + 0x100_0000 * r2[7] as nat,
                r2[10] as nat + 0x100 * r2[11] as nat,
                r2[12] as nat + 0x100 * r2[13] as nat + 0x1_0000 * r2[14] as nat + 0x100_0000 * r2[15] as nat)
  {
    hide BootOf;
    var b := BootOf(r0, r1, r2, r3);
    assert b[16 + 0] == r1[0] && b[16 + 1] == r1[1] && b[16 + 2] == r1[2] && b[16 + 3] == r1[3] && b[16 + 4] == r1[4];
    assert b[16 + 6] == r1[6] && b[16 + 7] == r1[7] && b[32 + 0] == r2[0] && b[32 + 1] == r2[1] && b[32 + 2] == r2[2];
    assert b[32 + 3] == r2[3] && b[32 + 4] == r2[4] && b[32 + 5] == r2[5] && b[32 + 6] == r2[6] && b[32 + 7] == r2[7];
    assert b[32 + 10] == r2[10] && b[32 + 11] == r2[11] && b[32 + 12] == r2[12] && b[32 + 13] == r2[13];
    assert b[32 + 14] == r2[14] && b[32 + 15] == r2[15];
  }

  /** An ordinary FAT16 volume: 4 sectors per cluster, one reserved sector, two FATs of 64 sectors, 512
      root entries, 65536 sectors. */
  function Boot16(): Sector {
    BootOf(
      [0xEB, 0x3C, 0x90, 0x4D, 0x53, 0x44, 0x4F, 0x53, 0x35, 0x2E, 0x30, 0x00, 0x02, 0x04, 0x01, 0x00],
      [0x02, 0x00, 0x02, 0x00, 0x00, 0xF8, 0x40, 0x00, 0x3F, 0x00, 0xFF, 0x00, 0x00, 0x00, 0x00, 0x00],
      [0x00, 0x00, 0x01, 0x00, 0x80, 0x00, 0x29, 0x00, 0x00, 0x00, 0x00, 0x00, 0x00, 0x00, 0x00, 0x00],
      [0x00, 0x00, 0x00, 0x00, 0x00, 0x00, 0x00, 0x00, 0x00, 0x00, 0x00, 0x00, 0x00, 0x00, 0x00, 0x00])
  }

  lemma Boot16Fields()
    ensures FieldBytes(Boot16()) == Bpb(512, 4, 1, 2, 512, 0, 64, 0x1_0000, 0x0029_0080, 0, 0)
  {
    hide BootOf, FieldBytes;
    RowFields(
      [0xEB, 0x3C, 0x90, 0x4D, 0x53, 0x44, 0x4F, 0x53, 0x35, 0x2E, 0x30, 0x00, 0x02, 0x04, 0x01, 0x00],
      [0x02, 0x00, 0x02, 0x00, 0x00, 0xF8, 0x40, 0x00, 0x3F, 0x00, 0xFF, 0x00, 0x00, 0x00, 0x00, 0x00],
      [0x00, 0x00, 0x01, 0x00, 0x80, 0x00, 0x29, 0x00, 0x00, 0x00, 0x00, 0x00, 0x00, 0x00, 0x00, 0x00],
      [0x00, 0x00, 0x00, 0x00, 0x00, 0x00, 0x00, 0x00, 0x00, 0x00, 0x00, 0x00, 0x00, 0x00, 0x00, 0x00]);
  }

  /** An ordinary FAT32 volume: 8 sectors per cluster, 32 reserved sectors, two FATs of 2048 sectors, no
      root entries, 2097152 sectors, the root directory at cluster 2. */
  function Boot32(): Sector {
    BootOf(
      [0xEB, 0x58, 0x90, 0x4D, 0x53, 0x44, 0x4F, 0x53, 0x35, 0x2E, 0x30, 0x00, 0x02, 0x08, 0x20, 0x00],
      [0x02, 0x00, 0x00, 0x00, 0x00, 0xF8, 0x00, 0x00, 0x3F, 0x00, 0xFF, 0x00, 0x00, 0x00, 0x00, 0x00],
      [0x00, 0x00, 0x20, 0x00, 0x00, 0x08, 0x00, 0x00, 0x00, 0x00, 0x00, 0x00, 0x02, 0x00, 0x00, 0x00],
      [0x01, 0x00, 0x06, 0x00, 0x00, 0x00, 0x00, 0x00, 0x00, 0x00, 0x00, 0x00, 0x00, 0x00, 0x00, 0x00])
  }

  lemma Boot32Fields()
    ensures FieldBytes(Boot32()) == Bpb(512, 8, 32, 2, 0, 0, 0, 0x20_0000, 2048, 0, 2)
  {
    hide BootOf, FieldBytes;
    RowFields(
      [0xEB, 0x58, 0x90, 0x4D, 0x53, 0x44, 0x4F, 0x53, 0x35, 0x2E, 0x30, 0x00, 0x02, 0x08, 0x20, 0x00],
      [0x02, 0x00, 0x00, 0x00, 0x00, 0xF8, 0x00, 0x00, 0x3F, 0x00, 0xFF, 0x00, 0x00, 0x00, 0x00, 0x00],
      [0x00, 0x00, 0x20, 0x00, 0x00, 0x08, 0x00, 0x00, 0x00, 0x00, 0x00, 0x00, 0x02, 0x00, 0x00, 0x00],
      [0x01, 0x00, 0x06, 0x00, 0x00, 0x00, 0x00, 0x00, 0x00, 0x00, 0x00, 0x00, 0x00, 0x00, 0x00, 0x00]);
  }

  /** Both are accepted. */
  lemma OrdinaryVolumes()
    ensures Tells(FieldBytes(Boot16()), 0, Geometry(FAT16, 2, 4, 512, 16345, 64, 0, 1, 129, 161))
    ensures Tells(FieldBytes(Boot32()), 2048, Geometry(FAT32, 2, 8, 0, 261630, 2048, 2048, 2080, 2, 6176))
  {
    hide FieldBytes, Boot16, Boot32;
    Boot16Fields();
    Boot32Fields();
  }
}
