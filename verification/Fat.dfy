/** Reading and writing FAT entries through the window. */
module Fat {
  import opened Bytes
  import opened Geometry
  import opened FatSpec
  import opened Window

  /** The sector of FAT byte p. */
  lemma FatSector(g: Geometry, end: int, p: nat)
    requires HasFat(g, end) && p < 512 * g.fsize
    ensures var s := g.fatbase + p / 512; g.InFat(s) && !g.InMirror(s) && s < end
  {
  }

  /** Move the window over byte p of the FAT and read it: the step get_fat and put_fat are made of. */
  method FetchByte(fs: Fatfs, p: nat) returns (res: FResult, b: byte)
    requires fs.Valid() && p < 512 * fs.geo.fsize
    modifies fs`wflag, fs`winsect, fs.win, fs.disk
    ensures fs.Valid()
    ensures res == OK || res == DISK_ERR
    ensures res == OK ==> fs.winsect == fs.geo.fatbase + p / 512 && fs.geo.InFat(fs.winsect)
                          && b == Image(fs.geo, fs.logical)[p]
    ensures fs.disk.reliable ==> res == OK
    ensures fs.winsect == old(fs.winsect) || fs.winsect == NO_SECTOR || fs.geo.InFat(fs.winsect)
    ensures fs.wflag ==> old(fs.wflag)
  {
    b := 0;
    FatSector(fs.geo, fs.size, p);
    res := fs.MoveWindow(fs.geo.fatbase + p / 512);
    if res == OK { b := fs.win[p % 512]; }
  }

  /** The value get_fat composes from the bytes of an entry is the entry. */
  lemma FatEntry(fs: Fatfs, c: nat)
    requires fs.Valid() && c < fs.geo.nFatent
    ensures Holds(fs.geo.fsType, Image(fs.geo, fs.logical), c)
    ensures fs.fat[c] == Entry(fs.geo.fsType, Image(fs.geo, fs.logical), c)
  {
    DecodesEach(fs.geo.fsType, Image(fs.geo, fs.logical), fs.fat, fs.geo.nFatent);
  }

  method GetFat12(fs: Fatfs, clst: nat) returns (val: nat)
    requires fs.Valid() && fs.geo.fsType == FAT12 && fs.geo.IsCluster(clst)
    modifies fs`wflag, fs`winsect, fs.win, fs.disk
    ensures fs.Valid()
    ensures val != FAT_DISK_ERR ==> val == fs.fat[clst] && fs.geo.InFat(fs.winsect)
    ensures val == FAT_DISK_ERR ==> !fs.disk.reliable
    ensures fs.winsect == old(fs.winsect) || fs.winsect == NO_SECTOR || fs.geo.InFat(fs.winsect)
    ensures fs.wflag ==> old(fs.wflag)
  {
    hide Coherent, Mirrored, Decodes;
    EntryInFat(fs.geo, fs.size, clst);
    var bc := clst + clst / 2;
    var res, b0 := FetchByte(fs, bc);
    if res != OK { return FAT_DISK_ERR; }
    bc := bc + 1;
    var b1;
    res, b1 := FetchByte(fs, bc);
    if res != OK { return FAT_DISK_ERR; }
    val := Value12(clst, b0, b1);
    FatEntry(fs, clst);
  }

  method GetFat16(fs: Fatfs, clst: nat) returns (val: nat)
    requires fs.Valid() && fs.geo.fsType == FAT16 && fs.geo.IsCluster(clst)
    modifies fs`wflag, fs`winsect, fs.win, fs.disk
    ensures fs.Valid()
    ensures val != FAT_DISK_ERR ==> val == fs.fat[clst] && fs.geo.InFat(fs.winsect)
    ensures val == FAT_DISK_ERR ==> !fs.disk.reliable
    ensures fs.winsect == old(fs.winsect) || fs.winsect == NO_SECTOR || fs.geo.InFat(fs.winsect)
    ensures fs.wflag ==> old(fs.wflag)
  {
    hide Coherent, Mirrored, Decodes;
    EntryInFat(fs.geo, fs.size, clst);
    WordAt(fs.geo, fs.logical, clst);
    var res, _ := FetchByte(fs, 2 * clst);
    if res != OK { return FAT_DISK_ERR; }
    val := LoadWord(fs.win[..], 2 * clst % 512);
    FatEntry(fs, clst);
  }

  method GetFat32(fs: Fatfs, clst: nat) returns (val: nat)
    requires fs.Valid() && fs.geo.fsType == FAT32 && fs.geo.IsCluster(clst)
    modifies fs`wflag, fs`winsect, fs.win, fs.disk
    ensures fs.Valid()
    ensures val != FAT_DISK_ERR ==> val == fs.fat[clst] && fs.geo.InFat(fs.winsect)
    ensures val == FAT_DISK_ERR ==> !fs.disk.reliable
    ensures fs.winsect == old(fs.winsect) || fs.winsect == NO_SECTOR || fs.geo.InFat(fs.winsect)
    ensures fs.wflag ==> old(fs.wflag)
  {
    hide Coherent, Mirrored, Decodes;
    EntryInFat(fs.geo, fs.size, clst);
    DwordAt(fs.geo, fs.logical, clst);
    var res, _ := FetchByte(fs, 4 * clst);
    if res != OK { return FAT_DISK_ERR; }
    val := Load28(fs.win[..], 4 * clst % 512);
    FatEntry(fs, clst);
  }

  /** get_fat: the value of an entry, 1 for a number that is no cluster, 0xFFFFFFFF on a disk error. */
  method GetFat(fs: Fatfs, clst: nat) returns (val: nat)
    requires fs.Valid()
    modifies fs`wflag, fs`winsect, fs.win, fs.disk
    ensures fs.Valid()
    ensures !fs.geo.IsCluster(clst) ==> val == FAT_INT_ERR && fs.winsect == old(fs.winsect)
    ensures fs.geo.IsCluster(clst) && val != FAT_DISK_ERR ==> val == fs.fat[clst] && fs.geo.InFat(fs.winsect)
    ensures val == FAT_DISK_ERR ==> !fs.disk.reliable
    ensures fs.winsect == old(fs.winsect) || fs.winsect == NO_SECTOR || fs.geo.InFat(fs.winsect)
    ensures fs.wflag ==> old(fs.wflag)
  {
    if clst < 2 || clst >= fs.geo.nFatent { return FAT_INT_ERR; }
    match fs.geo.fsType {
      case FAT12 => val := GetFat12(fs, clst);
      case FAT16 => val := GetFat16(fs, clst);
      case FAT32 => val := GetFat32(fs, clst);
    }
  }

  /** What put_fat makes of the FAT's bytes. */
  ghost predicate EntryPut(g: Geometry, a: seq<Sector>, b: seq<Sector>, clst: nat, val: nat, res: FResult)
    requires HasFat(g, |a|) && HasFat(g, |b|)
  {
    var m, r := Image(g, a), Image(g, b);
    if res == OK then Holds(g.fsType, m, clst) && r == PutEntry(g.fsType, m, clst, val)
    else HalfPut(g.fsType, m, r, clst, val)
  }

  /** A sector changed in the window is pending; the medium lags behind just there. */
  lemma PendingSector(g: Geometry, l: seq<Sector>, d: seq<Sector>, p: nat, ws: nat, u: Sector)
    requires |l| == |d| && HasFat(g, |d|) && g.InFat(ws) && (p == ws || p >= |l|) && (g.nFats == 1 || g.nFats == 2)
    requires Coherent(g, l, d, p)
    ensures Coherent(g, PutSector(g, l, ws, u), d, ws)
    ensures Mirrored(g, l, d, p) ==> Mirrored(g, PutSector(g, l, ws, u), d, ws)
  {
  }

  /** Mark the window, which shows a FAT sector and whose bytes were changed, dirty. */
  method MarkDirty(fs: Fatfs)
    requires fs.Consistent() && fs.geo.InFat(fs.winsect)
    modifies fs`wflag, fs`logical, fs`fat
    ensures fs.Valid() && fs.wflag
    ensures fs.logical == PutSector(fs.geo, old(fs.logical), fs.winsect, fs.win[..])
  {
    ghost var l: seq<Sector> := PutSector(fs.geo, fs.logical, fs.winsect, fs.win[..]);
    PendingSector(fs.geo, fs.logical, fs.disk.sectors, fs.Pending(), fs.winsect, fs.win[..]);
    fs.wflag := true;
    fs.logical, fs.fat := l, FatMap(fs.geo, l);
  }

  /** Change bytes at offset off of the window, which shows a FAT sector. */
  method ChangeWindow(fs: Fatfs, off: nat, v: seq<byte>)
    requires fs.Valid() && fs.geo.InFat(fs.winsect) && off + |v| <= 512
    modifies fs`wflag, fs`logical, fs`fat, fs.win
    ensures fs.Valid() && fs.wflag
    ensures SameButFat(fs.geo, old(fs.logical), fs.logical)
    ensures Image(fs.geo, fs.logical) ==
              PutBytes(Image(fs.geo, old(fs.logical)), 512 * (fs.winsect - fs.geo.fatbase) + off, v)
  {
    Overwrite(fs.win, off, v);
    MarkDirty(fs);
    PutSectorImage(fs.geo, old(fs.logical), fs.winsect, fs.win[..], off, v);
  }

  /** Change bytes from p of the FAT on, all in the sector the window shows. */
  method StoreBytes(fs: Fatfs, p: nat, v: seq<byte>)
    requires fs.Valid() && |v| > 0 && p + |v| <= 512 * fs.geo.fsize && p % 512 + |v| <= 512
    requires fs.geo.InFat(fs.winsect) && fs.winsect == fs.geo.fatbase + p / 512
    modifies fs`wflag, fs`logical, fs`fat, fs.win
    ensures fs.Valid() && fs.wflag
    ensures SameButFat(fs.geo, old(fs.logical), fs.logical)
    ensures Image(fs.geo, fs.logical) == PutBytes(Image(fs.geo, old(fs.logical)), p, v)
  {
    ChangeWindow(fs, p % 512, v);
  }

  /** Read, change and store byte p, one of the two of a 12-bit entry. */
  method UpdateByte12(fs: Fatfs, p: nat, clst: nat, val: nat, second: bool) returns (res: FResult)
    requires fs.Valid() && p < 512 * fs.geo.fsize
    modifies fs`wflag, fs`winsect, fs`logical, fs`fat, fs.win, fs.disk
    ensures fs.Valid() && (res == OK || res == DISK_ERR) && (fs.disk.reliable ==> res == OK)
    ensures SameButFat(fs.geo, old(fs.logical), fs.logical)
    ensures var m := Image(fs.geo, old(fs.logical));
            Image(fs.geo, fs.logical) == if res == OK then PutBytes(m, p, [NewByte12(clst, m[p], val, second)]) else m
    ensures res == OK ==> fs.geo.InFat(fs.winsect)
    ensures fs.winsect == old(fs.winsect) || fs.winsect == NO_SECTOR || fs.geo.InFat(fs.winsect)
  {
    var b;
    res, b := FetchByte(fs, p);
    if res == OK { StoreBytes(fs, p, [NewByte12(clst, b, val, second)]); }
  }

  method PutFat12(fs: Fatfs, clst: nat, val: nat) returns (res: FResult)
    requires fs.Valid() && fs.geo.fsType == FAT12 && fs.geo.IsCluster(clst)
    modifies fs`wflag, fs`winsect, fs`logical, fs`fat, fs.win, fs.disk
    ensures fs.Valid() && (res == OK || res == DISK_ERR) && (fs.disk.reliable ==> res == OK)
    ensures SameButFat(fs.geo, old(fs.logical), fs.logical)
    ensures EntryPut(fs.geo, old(fs.logical), fs.logical, clst, val, res)
    ensures res == OK ==> fs.geo.InFat(fs.winsect)
    ensures fs.winsect == old(fs.winsect) || fs.winsect == NO_SECTOR || fs.geo.InFat(fs.winsect)
  {
    hide Coherent, Mirrored, Decodes, Fatfs.Tracked, Image;
    EntryInFat(fs.geo, fs.size, clst);
    ghost var m := Image(fs.geo, fs.logical);
    var bc := clst + clst / 2;
    res := UpdateByte12(fs, bc, clst, val, false);
    if res == OK {
      ghost var m1 := Image(fs.geo, fs.logical);
      res := UpdateByte12(fs, bc + 1, clst, val, true);
      Put12Steps(m, m1, Image(fs.geo, fs.logical), clst, val, res == OK);
    }
  }

  method PutFat16(fs: Fatfs, clst: nat, val: nat) returns (res: FResult)
    requires fs.Valid() && fs.geo.fsType == FAT16 && fs.geo.IsCluster(clst)
    modifies fs`wflag, fs`winsect, fs`logical, fs`fat, fs.win, fs.disk
    ensures fs.Valid() && (res == OK || res == DISK_ERR) && (fs.disk.reliable ==> res == OK)
    ensures SameButFat(fs.geo, old(fs.logical), fs.logical)
    ensures EntryPut(fs.geo, old(fs.logical), fs.logical, clst, val, res)
    ensures res == OK ==> fs.geo.InFat(fs.winsect)
    ensures fs.winsect == old(fs.winsect) || fs.winsect == NO_SECTOR || fs.geo.InFat(fs.winsect)
  {
    EntryInFat(fs.geo, fs.size, clst);
    WordAt(fs.geo, fs.logical, clst);
    var b;
    res, b := FetchByte(fs, 2 * clst);
    if res == OK {
      StoreBytes(fs, 2 * clst, Bytes16(val));
    }
  }

  method PutFat32(fs: Fatfs, clst: nat, val: nat) returns (res: FResult)
    requires fs.Valid() && fs.geo.fsType == FAT32 && fs.geo.IsCluster(clst)
    modifies fs`wflag, fs`winsect, fs`logical, fs`fat, fs.win, fs.disk
    ensures fs.Valid() && (res == OK || res == DISK_ERR) && (fs.disk.reliable ==> res == OK)
    ensures SameButFat(fs.geo, old(fs.logical), fs.logical)
    ensures EntryPut(fs.geo, old(fs.logical), fs.logical, clst, val, res)
    ensures res == OK ==> fs.geo.InFat(fs.winsect)
    ensures fs.winsect == old(fs.winsect) || fs.winsect == NO_SECTOR || fs.geo.InFat(fs.winsect)
  {
    hide Coherent, Mirrored, Decodes;
    EntryInFat(fs.geo, fs.size, clst);
    DwordInSector(clst);
    var last;
    res, last := FetchByte(fs, 4 * clst + 3);
    if res == OK {
      Put32Step(Image(fs.geo, fs.logical), clst, val, last);
      StoreBytes(fs, 4 * clst, Bytes32(val, last));
    }
  }

  /** put_fat: set the entry of a cluster; no other entry, no top bits and no other sector change. */
  method PutFat(fs: Fatfs, clst: nat, val: nat) returns (res: FResult)
    requires fs.Valid()
    modifies fs`wflag, fs`winsect, fs`logical, fs`fat, fs.win, fs.disk
    ensures fs.Valid()
    ensures if fs.geo.IsCluster(clst) then (res == OK || res == DISK_ERR) && (fs.disk.reliable ==> res == OK)
            else res == INT_ERR && fs.logical == old(fs.logical)
    ensures res == OK ==> fs.fat == old(fs.fat)[clst := Clip(fs.geo.fsType, val)]
    ensures forall k :: 0 <= k < fs.geo.nFatent && k != clst ==> fs.fat[k] == old(fs.fat[k])
    ensures SameButFat(fs.geo, old(fs.logical), fs.logical)
    ensures EntryPut(fs.geo, old(fs.logical), fs.logical, clst, val, res)
    ensures res == OK ==> fs.geo.InFat(fs.winsect)
    ensures fs.winsect == old(fs.winsect) || fs.winsect == NO_SECTOR || fs.geo.InFat(fs.winsect)
  {
    hide Fatfs.Tracked;
    res := INT_ERR;
    if 2 <= clst < fs.geo.nFatent {
      match fs.geo.fsType {
        case FAT12 => res := PutFat12(fs, clst, val);
        case FAT16 => res := PutFat16(fs, clst, val);
        case FAT32 => res := PutFat32(fs, clst, val);
      }
      EntryInFat(fs.geo, fs.size, clst);
      DecodesPut(fs.geo.fsType, Image(fs.geo, old(fs.logical)), Image(fs.geo, fs.logical), old(fs.fat), fs.fat, clst,
          val);
    }
  }
}
