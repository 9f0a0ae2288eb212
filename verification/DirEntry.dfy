/** The directory entry of a file, and writing everything pending to the medium. */
module DirEntry {
  import opened Bytes
  import opened Geometry
  import opened FatSpec
  import opened FsInfoSector
  import opened Window
  import opened Transfer

  const ENTRY_SIZE: nat := 32

  /** ld_clust: the first cluster the entry at offset o of a sector names. */
  function LoadCluster(t: FatType, w: seq<byte>, o: nat): (c: dword)
    requires o + 32 <= |w|
  {
    LoadWord(w, o + 26) + (if t == FAT32 then 0x1_0000 * LoadWord(w, o + 20) else 0)
  }

  /** st_clust. */
  function StoreCluster(t: FatType, w: seq<byte>, o: nat, c: nat): (r: seq<byte>)
    requires o + 32 <= |w|
    ensures |r| == |w|
  {
    var r := StoreWord(w, o + 26, c);
    if t == FAT32 then StoreWord(r, o + 20, c / 0x1_0000) else r
  }

  function LoadSize(w: seq<byte>, o: nat): (n: dword)
    requires o + 32 <= |w|
  {
    LoadDword(w, o + 28)
  }

  /** The sector of an entry after f_sync has stored in it the first cluster c, the size n and the time
      tm: the archive attribute set, no access date. */
  function EntryStored(t: FatType, w: seq<byte>, o: nat, c: nat, n: nat, tm: nat): (r: seq<byte>)
    requires o + 32 <= |w|
    ensures |r| == |w|
  {
    var a := w[o + 11 := w[o + 11] as nat / 64 * 64 + 32 + w[o + 11] as nat % 32];
    StoreWord(StoreDword(StoreDword(StoreCluster(t, a, o, c), o + 28, n), o + 22, tm), o + 18, 0)
  }

  /** A cluster number of the volume fits the entry. */
  predicate ClusterFits(t: FatType, c: nat) { c < if t == FAT32 then 0x1_0000_0000 else 0x1_0000 }

  /** What f_sync makes, byte by byte, of the sector w that holds the entry at offset o. Of the attributes bit 5
      is set and the others stay; the name before them, the six bytes behind them and, where clusters are
      numbers of 16 bits, the two bytes for the upper half of one stay as well. */
  predicate EntryWritten(t: FatType, w: seq<byte>, r: seq<byte>, o: nat, c: nat, n: nat, tm: nat) {
    && o + 32 <= |w| == |r|
    && (forall i :: 0 <= i < |w| && !(o + 11 <= i < o + 32) ==> r[i] == w[i])
    && r[o + 11] as nat / 32 % 2 == 1
    && r[o + 11] as nat / 64 == w[o + 11] as nat / 64 && r[o + 11] as nat % 32 == w[o + 11] as nat % 32
    && (forall i :: o + 12 <= i < o + 18 ==> r[i] == w[i])
    && r[o + 18] == 0 && r[o + 19] == 0
    && (if t == FAT32 then r[o + 20] as nat + 0x100 * r[o + 21] as nat == c / 0x1_0000
        else r[o + 20] == w[o + 20] && r[o + 21] == w[o + 21])
    && r[o + 22] as nat + 0x100 * r[o + 23] as nat + 0x1_0000 * r[o + 24] as nat + 0x100_0000 * r[o + 25] as nat
       == tm % 0x1_0000_0000
    && r[o + 26] as nat + 0x100 * r[o + 27] as nat == c % 0x1_0000
    && r[o + 28] as nat + 0x100 * r[o + 29] as nat + 0x1_0000 * r[o + 30] as nat + 0x100_0000 * r[o + 31] as nat == n
  }

  lemma ArchiveSet(b: byte)
    ensures var r := b as nat / 64 * 64 + 32 + b as nat % 32;
            r < 256 && r / 32 % 2 == 1 && r / 64 == b as nat / 64 && r % 32 == b as nat % 32
  {
  }

  lemma EntryBytes(t: FatType, w: seq<byte>, o: nat, c: nat, n: nat, tm: nat)
    requires o + 32 <= |w| && ClusterFits(t, c) && n <= DWORD_MAX
    ensures EntryWritten(t, w, EntryStored(t, w, o, c, n, tm), o, c, n, tm)
  {
    hide StoreWord, StoreDword;
    var a := w[o + 11 := w[o + 11] as nat / 64 * 64 + 32 + w[o + 11] as nat % 32];
    var b := StoreCluster(t, a, o, c);
    assert LoadWord(b, o + 26) == c % 0x1_0000;
    assert t == FAT32 ==> LoadWord(b, o + 20) == c / 0x1_0000;
    var d := StoreDword(b, o + 28, n);
    var e := StoreDword(d, o + 22, tm);
    var r := StoreWord(e, o + 18, 0);
    assert LoadWord(r, o + 26) == LoadWord(b, o + 26) && LoadWord(r, o + 20) == LoadWord(b, o + 20);
    assert LoadDword(r, o + 28) == LoadDword(d, o + 28) == n;
    assert LoadDword(r, o + 22) == LoadDword(e, o + 22);
    assert LoadWord(r, o + 18) == 0;
    ArchiveSet(w[o + 11]);
    assert r[o + 11] == a[o + 11];
  }

  /** So ld_clust and ld_dword read back what was stored. */
  lemma EntryReadsBack(t: FatType, w: seq<byte>, o: nat, c: nat, n: nat, tm: nat)
    requires o + 32 <= |w| && ClusterFits(t, c) && n <= DWORD_MAX
    ensures var r := EntryStored(t, w, o, c, n, tm);
            LoadCluster(t, r, o) == c && LoadSize(r, o) == n
            && (forall i :: 0 <= i < |w| && !(o + 11 <= i < o + 32) ==> r[i] == w[i])
  {
    hide EntryStored;
    EntryBytes(t, w, o, c, n, tm);
  }

  // ---------------------------------------------------------------- the window over other sectors

  /** A changed window over a sector that is no FAT sector is pending. */
  lemma PendingOther(g: Geometry, l: seq<Sector>, d: seq<Sector>, p: nat, ws: nat, u: Sector)
    requires |l| == |d| && HasFat(g, |d|) && ws < |l| && !g.InFat(ws) && !g.InMirror(ws) && (p == ws || p >= |l|)
    requires Coherent(g, l, d, p)
    ensures Coherent(g, l[ws := u], d, ws)
    ensures Mirrored(g, l, d, p) ==> Mirrored(g, l[ws := u], d, ws)
    ensures Image(g, l[ws := u]) == Image(g, l)
  {
    ImageKept(g, l[ws := u], l);
  }

  /** Mark the window, which shows a sector outside the FATs and whose bytes were changed, dirty. */
  method MarkOther(fs: Fatfs)
    requires fs.Consistent() && fs.geo.fatbase <= fs.winsect < fs.size && !fs.geo.InFat(fs.winsect)
    modifies fs`wflag, fs`logical
    ensures fs.Valid() && fs.wflag
    ensures fs.logical == old(fs.logical)[fs.winsect := fs.win[..]]
  {
    PendingOther(fs.geo, fs.logical, fs.disk.sectors, fs.Pending(), fs.winsect, fs.win[..]);
    fs.wflag := true;
    fs.logical := fs.logical[fs.winsect := fs.win[..]];
  }

  // ---------------------------------------------------------------- sync_fs

  /** Sync_fs is about to write the FSInfo sector. */
  ghost predicate WritesInfo(fs: Fatfs)
    reads fs
  {
    fs.geo.fsType == FAT32 && !fs.infoOff && fs.infoDue
  }

  /** Build the FSInfo sector in the window. */
  method BuildInfo(fs: Fatfs)
    requires fs.win.Length == 512
    modifies fs.win
    ensures fs.win[..] == FsInfo(fs.freeClst, fs.lastClst)
  {
    forall i | 0 <= i < 512 { fs.win[i] := 0; }
    assert fs.win[..] == seq(512, i => 0);
    PutWord(fs.win, 510, 0xAA55);
    PutDword(fs.win, 0, 0x41615252);
    PutDword(fs.win, 484, 0x61417272);
    PutDword(fs.win, 488, fs.freeClst);
    PutDword(fs.win, 492, fs.lastClst);
  }

  /** sync_fs: write the window back, and the FSInfo sector when it is out of date. The result of that
      second write is not looked at, so on a medium that fails the window may not show its sector. With one
      reserved sector FSInfo is written over the first sector of the first FAT, and not of the second. */
  method SyncFs(fs: Fatfs) returns (res: FResult)
    requires fs.Valid() && fs.geo.volbase < fs.geo.fatbase
    modifies fs`wflag, fs`winsect, fs`infoDue, fs`logical, fs`fat, fs`mirrored, fs.win, fs.disk
    ensures fs.Consistent() && (fs.disk.reliable ==> fs.Valid() && res == OK)
    ensures res == OK ==> !fs.wflag
    ensures old(WritesInfo(fs)) || fs.infoDue == old(fs.infoDue)
    ensures fs.tracked ==> !fs.infoDue && fs.InfoTold()
    ensures |fs.logical| == old(|fs.logical|)
    ensures fs.disk.reliable && old(WritesInfo(fs)) ==>
              !fs.infoDue && fs.logical == InfoPut(fs.geo, old(fs.logical), FsInfo(fs.freeClst, fs.lastClst))
    ensures forall i :: 0 <= i < fs.size && !(old(WritesInfo(fs)) && InfoPlace(fs.geo, i)) ==>
              fs.logical[i] == old(fs.logical[i])
    ensures fs.winsect == old(fs.winsect) || (old(WritesInfo(fs)) && fs.winsect == fs.geo.volbase + 1)
    ensures !old(WritesInfo(fs)) || InfoApart(fs.geo) ==> fs.fat == old(fs.fat) && fs.mirrored == old(fs.mirrored)
    ensures fs.disk.reliable && old(WritesInfo(fs)) && !InfoApart(fs.geo) ==>
              forall c :: 0 <= c < |fs.fat| ==> InfoLeaves(old(fs.fat), fs.fat, c)
    ensures fs.disk.reliable && UsedUnderInfo(fs.geo, old(fs.fat)) ==>
              (fs.fat == old(fs.fat) <==> !old(WritesInfo(fs)) || InfoApart(fs.geo))
  {
    hide Coherent, Mirrored, Decodes, UsedUnderInfo;
    ghost var l, f := fs.logical, fs.fat;
    res := fs.SyncWindow();
    if res == OK {
      if fs.geo.fsType == FAT32 && !fs.infoOff && fs.infoDue {
        WriteInfo(fs);
        if fs.disk.reliable && !InfoApart(fs.geo) { InfoBreaksFat(fs, l, f); }
      }
    }
  }

  /** Sectors of the logical disk that writing FSInfo may change: its own, and when that is a FAT sector
      the one that shows it. */
  ghost predicate InfoPlace(g: Geometry, i: int) {
    i == g.volbase + 1 || (!InfoApart(g) && g.InMirror(i) && i == g.fatbase + g.fsize)
  }

  lemma FirstFatSector(g: Geometry, end: int)
    requires FatLaid(g, end)
    ensures g.InFat(g.fatbase) && !g.InMirror(g.fatbase) && g.fatbase < end
  {
    EntryInFat(g, end, 0);
  }

  /** The first FAT sector written past the window. */
  lemma PutThrough(g: Geometry, l: seq<Sector>, d: seq<Sector>, s: nat, d': seq<Sector>)
    requires |l| == |d| == |d'| && HasFat(g, |d|) && g.InFat(s) && Coherent(g, l, d, NO_SECTOR) && |d| <= NO_SECTOR
    requires forall i :: 0 <= i < |d| && i != s ==> d'[i] == d[i]
    ensures Coherent(g, PutSector(g, l, s, d'[s]), d', NO_SECTOR)
    ensures forall i :: 0 <= i < |l| && i != s && !(g.InMirror(i) && i == s + g.fsize) ==>
              PutSector(g, l, s, d'[s])[i] == l[i]
  {
  }

  /** The logical disk with FSInfo sector w written. */
  ghost function InfoPut(g: Geometry, l: seq<Sector>, w: Sector): (r: seq<Sector>)
    requires FatLaid(g, |l|) && g.volbase < g.fatbase
    ensures |r| == |l|
  {
    FirstFatSector(g, |l|);
    if InfoApart(g) then l[g.volbase + 1 := w] else PutSector(g, l, g.fatbase, w)
  }

  /** Some cluster whose entry is where an FSInfo sector has zeros is in use. */
  ghost predicate UsedUnderInfo(g: Geometry, f: seq<nat>) {
    exists c: nat :: InfoZeroed(c) && c < |f| && f[c] != 0
  }

  /** Clusters whose entries in the first sector of a FAT32 are zeros of an FSInfo sector. */
  predicate InfoZeroed(c: nat) { 2 <= c <= 120 || 124 <= c <= 126 }

  /** What writing FSInfo over that sector does to the entry of cluster c: those are freed, and the entries
      of the other sectors stay. */
  predicate InfoLeaves(f: seq<nat>, f': seq<nat>, c: nat)
    requires c < |f'|
  {
    (InfoZeroed(c) ==> f'[c] == 0) && (c >= 128 ==> c < |f| && f'[c] == f[c])
  }

  /** The place of the first cluster of a chain with its entry in that sector, or the length. */
  function FirstBelow(chain: seq<nat>): (p: nat)
    ensures p <= |chain| && (forall j :: 0 <= j < p ==> chain[j] >= 128) && (p < |chain| ==> chain[p] < 128)
  {
    if chain == [] || chain[0] < 128 then 0 else 1 + FirstBelow(chain[1..])
  }

  /** Written over the first sector of a FAT32, FSInfo frees these clusters. */
  lemma InfoFrees(g: Geometry, l: seq<Sector>, free: nat, last: nat, c: nat)
    requires FatLaid(g, |l|) && g.fsType == FAT32 && g.volbase < g.fatbase && !InfoApart(g)
    requires InfoZeroed(c) && c < g.nFatent
    ensures FatMap(g, InfoPut(g, l, FsInfo(free, last)))[c] == 0
  {
    hide FsInfo, Load28;
    hide StoreWord, StoreDword;
    var l' := InfoPut(g, l, FsInfo(free, last));
    var f := FatMap(g, l');
    DecodesEach(g.fsType, Image(g, l'), f, g.nFatent);
    EntryInFat(g, |l|, c);
    DwordAt(g, l', c);
    InfoZero(free, last, c);
    assert 4 * c / 512 == 0 && 4 * c % 512 == 4 * c;
  }

  /** ... and leaves the entries of the other sectors alone. */
  lemma InfoSpares(g: Geometry, l: seq<Sector>, free: nat, last: nat, c: nat)
    requires FatLaid(g, |l|) && g.fsType == FAT32 && g.volbase < g.fatbase && !InfoApart(g)
    requires 128 <= c < g.nFatent
    ensures FatMap(g, InfoPut(g, l, FsInfo(free, last)))[c] == FatMap(g, l)[c]
  {
    hide FsInfo, Load28;
    var l' := InfoPut(g, l, FsInfo(free, last));
    DecodesEach(g.fsType, Image(g, l'), FatMap(g, l'), g.nFatent);
    DecodesEach(g.fsType, Image(g, l), FatMap(g, l), g.nFatent);
    EntryInFat(g, |l|, c);
    DwordAt(g, l', c);
    DwordAt(g, l, c);
    assert 4 * c / 512 >= 1;
    assert l'[g.fatbase + 4 * c / 512] == l[g.fatbase + 4 * c / 512];
  }

  lemma InfoZero(free: nat, last: nat, c: nat)
    requires InfoZeroed(c)
    ensures Load28(FsInfo(free, last), 4 * c) == 0
  {
    hide StoreWord, StoreDword;
    var w := FsInfo(free, last);
    assert forall i :: 4 * c <= i < 4 * c + 4 ==> w[i] == 0;
  }

  lemma InfoBreaksFat(fs: Fatfs, l: seq<Sector>, f: seq<nat>)
    requires fs.Valid() && fs.geo.fsType == FAT32 && fs.geo.volbase < fs.geo.fatbase && !InfoApart(fs.geo)
    requires |l| == fs.size && fs.logical == InfoPut(fs.geo, l, FsInfo(fs.freeClst, fs.lastClst))
    requires |f| == fs.geo.nFatent && Decodes(fs.geo.fsType, Image(fs.geo, l), f, |f|)
    ensures forall c :: 0 <= c < |fs.fat| ==> InfoLeaves(f, fs.fat, c)
    ensures UsedUnderInfo(fs.geo, f) ==> fs.fat != f
  {
    hide FsInfo, Image, FatMap, InfoPut, Decodes, Coherent, Mirrored;
    SameFat(fs.geo.fsType, Image(fs.geo, fs.logical), fs.fat, FatMap(fs.geo, fs.logical));
    SameFat(fs.geo.fsType, Image(fs.geo, l), f, FatMap(fs.geo, l));
    forall c | 0 <= c < |fs.fat| ensures InfoLeaves(f, fs.fat, c) {
      if InfoZeroed(c) { InfoFrees(fs.geo, l, fs.freeClst, fs.lastClst, c); }
      if c >= 128 { InfoSpares(fs.geo, l, fs.freeClst, fs.lastClst, c); }
    }
    if c: nat :| InfoZeroed(c) && c < |f| && f[c] != 0 { assert InfoLeaves(f, fs.fat, c); }
  }

  lemma InfoSector(g: Geometry, end: int)
    requires FatLaid(g, end) && g.volbase < g.fatbase
    ensures g.volbase + 1 < end && !g.InMirror(g.volbase + 1)
    ensures if InfoApart(g) then !g.InFat(g.volbase + 1) else g.volbase + 1 == g.fatbase && g.InFat(g.fatbase)
  {
    FirstFatSector(g, end);
  }

  method WriteInfo(fs: Fatfs)
    requires fs.Valid() && !fs.wflag && fs.geo.volbase < fs.geo.fatbase
    modifies fs`winsect, fs`infoDue, fs`logical, fs`fat, fs`mirrored, fs.win, fs.disk
    ensures fs.Consistent() && (fs.disk.reliable ==> fs.Valid()) && !fs.infoDue
    ensures fs.winsect == fs.geo.volbase + 1 && |fs.logical| == old(|fs.logical|)
    ensures fs.disk.reliable ==> fs.logical == InfoPut(fs.geo, old(fs.logical), FsInfo(fs.freeClst, fs.lastClst))
    ensures forall i :: 0 <= i < fs.size && !InfoPlace(fs.geo, i) ==> fs.logical[i] == old(fs.logical[i])
    ensures InfoApart(fs.geo) ==> fs.fat == old(fs.fat) && fs.mirrored == old(fs.mirrored)
  {
    hide Coherent, Mirrored, Decodes, FsInfo, Image, InfoNumbers;
    ghost var l, d := fs.logical, fs.disk.sectors;
    BuildInfo(fs);
    InfoKnown(fs.freeClst, fs.lastClst);
    FirstFatSector(fs.geo, fs.size);
    InfoSector(fs.geo, fs.size);
    var s := fs.geo.volbase + 1;
    fs.winsect := s;
    var _ := fs.disk.Write(fs.win, s);
    fs.infoDue := false;
    ghost var w := fs.disk.sectors[s];
    if InfoApart(fs.geo) {
      fs.logical := l[s := w];
      Bypassed(fs.geo, l, d, fs.Pending(), s, 1, fs.logical, fs.disk.sectors);
    } else {
      PutThrough(fs.geo, l, d, s, fs.disk.sectors);
      fs.logical := PutSector(fs.geo, l, s, w);
      fs.fat := FatMap(fs.geo, fs.logical);
      fs.mirrored := false;
    }
  }
}
