/** Open files: a byte sequence over a cluster chain, with a private one-sector buffer. */
module File {
  import opened Bytes
  import opened Geometry
  import opened FsInfoSector
  import opened FatSpec
  import opened Window
  import opened Fat
  import opened ChainSpec
  import opened Chain
  import opened FileSpec
  import opened FileState
  import opened Transfer
  import opened DirEntry

  /** The FIL object; its flag byte as four flags. */
  class Fil {
    const fs: Fatfs
    const buf: array<byte>
    const mayRead: bool
    const mayWrite: bool
    const dirSect: nat          // the sector of the directory entry
    const dirOff: nat           // and its offset there
    var modified: bool
    var dirty: bool
    var err: FResult
    var sclust: nat
    var objsize: nat
    var fptr: nat
    var clust: nat
    var sect: nat
    ghost var chain: seq<nat>
    ghost var shown: Sector     // the bytes in buf

    ghost function St(): State
      reads this, fs
    {
      State(fs.geo, fs.size, fs.fat, fs.freeClst, fs.winsect, fs.logical,
            chain, sclust, objsize, fptr, sect, dirty, shown)
    }

    /** What holds between any two steps of an operation. */
    ghost predicate Core()
      reads this, buf, fs, fs.win, fs.disk
    {
      fs.Valid() && buf != fs.win && buf.Length == 512 && buf[..] == shown && Judge(St()).Sound?
    }

    /** The object invariant: the current cluster is the one of the byte before the file pointer. */
    ghost predicate Valid()
      reads this, buf, fs, fs.win, fs.disk
    {
      Core() && (fptr > 0 ==> Holding(fs.geo, chain, fptr - 1, clust))
    }

    /** What holds between operations: a file that met an error is refused from then on. */
    ghost predicate Usable()
      reads this, buf, fs, fs.win, fs.disk
    {
      fs.Valid() && (err == OK ==> Valid())
    }

    /** The bytes of the file. */
    ghost function Contents(): (c: seq<byte>)
      requires Judge(St()).Sound?
      reads this, fs
      ensures |c| == objsize
    {
      FileBytes(St())
    }

    /** The end of f_open: an object for the file whose directory entry gives sclust and objsize. */
    constructor (v: Fatfs, ds: nat, off: nat, start: nat, length: nat, r: bool, w: bool, created: bool,
                 ghost clusters: seq<nat>)
      requires v.Valid() && JudgeRoot(v.geo, v.size, v.fat, v.freeClst, v.winsect, clusters, start).Sound?
      requires Covers(v.geo, clusters, length) && length <= DWORD_MAX
      ensures Valid() && fresh(buf) && fs == v && mayRead == r && mayWrite == w && modified == created
      ensures dirSect == ds && dirOff == off
      ensures chain == clusters && sclust == start && objsize == length && fptr == 0 && err == OK && !dirty
      ensures fs.logical == v.logical && OnDisk(v.geo, clusters, |v.logical|)
      ensures Contents() == Content(v.geo, v.logical, clusters, length)
    {
      fs, mayRead, mayWrite, dirSect, dirOff := v, r, w, ds, off;
      sclust, objsize, chain := start, length, clusters;
      modified, dirty := created, false;
      err, sect, fptr, clust := OK, 0, 0, 0;
      buf := new byte[512](i => 0);
      shown := seq(512, i => 0);
      new;
      AllOnDisk(fs.geo, fs.size, chain);
    }

    /** Write a changed buffer back to its sector. */
    method Flush() returns (res: FResult)
      requires Core()
      modifies this`dirty, fs`logical, fs.disk
      ensures Core() && (res == OK || res == DISK_ERR) && (fs.disk.reliable ==> res == OK)
      ensures res == OK ==> !dirty && fs.logical == old(St().View())
      ensures Became(old(St()), St(), old(Contents())).Sound?
      ensures dirty ==> old(dirty)
    {
      res := OK;
      ghost var s := St();
      BecameNothing(s);
      if dirty {
        BufferPlace(s);
        var ok := WriteSector(fs, buf, sect);
        FlushStep(s, fs.logical, ok);
        if ok { dirty := false; } else { res := DISK_ERR; }
      }
    }

    /** Read sector s0, which is sector q of the file, into an unchanged buffer. */
    method ReplaceBuffer(s0: nat, ghost q: nat) returns (res: FResult)
      requires Core() && !dirty && Bypass(fs, s0, 1)
      requires q < SectorCount(fs.geo, chain) && s0 == SectorOf(fs.geo, chain, q)
      requires fptr % 512 != 0 ==> q == fptr / 512
      modifies this`sect, this`shown, buf
      ensures fs.Valid() && (res == OK || res == DISK_ERR) && (fs.disk.reliable ==> res == OK)
      ensures res == OK ==> Core() && sect == s0 && Became(old(St()), St(), old(Contents())).Sound?
    {
      hide Fatfs.Valid, Fatfs.Consistent;
      ghost var s := St();
      SectorOfOwned(fs.geo, chain, q);
      AllOnDisk(fs.geo, fs.size, chain);
      var ok := ReadSector(fs, s0, buf);
      if !ok { return DISK_ERR; }
      sect := s0;
      shown := buf[..];
      LoadStep(s, q, shown);
      res := OK;
    }

    /** Bring the sector of the file pointer into the buffer, writing a changed one back first. */
    method LoadSector(s0: nat) returns (res: FResult)
      requires Core() && Bypass(fs, s0, 1)
      requires fptr / 512 < SectorCount(fs.geo, chain) && s0 == SectorOf(fs.geo, chain, fptr / 512)
      modifies this`sect, this`dirty, this`shown, buf, fs`logical, fs.disk
      ensures fs.Valid() && (res == OK || res == DISK_ERR) && (fs.disk.reliable ==> res == OK)
      ensures res == OK ==> Core() && sect == s0 && Became(old(St()), St(), old(Contents())).Sound?
      ensures dirty ==> old(dirty)
    {
      res := OK;
      if sect != s0 {
        ghost var s, c := St(), Contents();
        res := Flush();
        if res != OK { return; }
        ghost var t := St();
        res := ReplaceBuffer(s0, fptr / 512);
        if res == OK { BecameThen(s, t, c, St(), c); }
      } else {
        BecameNothing(St());
      }
    }

    // -------------------------------------------------------------- f_read

    /** On a cluster boundary before the end: go to the cluster of the file pointer. */
    method FollowForRead() returns (res: FResult)
      requires Valid() && fptr < objsize && fptr % 512 == 0 && Rem(fptr / 512, fs.geo.csize) == 0
      modifies this`clust, fs`wflag, fs`winsect, fs.win, fs.disk
      ensures Core() && (fs.disk.reliable ==> res == OK)
      ensures res == OK ==> Holding(fs.geo, chain, fptr, clust)
      ensures Became(old(St()), St(), old(Contents())).Sound?
      ensures fs.wflag ==> old(fs.wflag)
    {
      hide KeepsOthers, Judge, FileBytes;
      ghost var s := St();
      InChain(s);
      var clst;
      if fptr == 0 {
        HeadCluster(s);
        clst := sclust;
      } else {
        NextCluster(s, clust);
        clst := GetFat(fs, clust);
      }
      WindowStep(s, fs.winsect);
      if clst < 2 { return INT_ERR; }
      if clst == FAT_DISK_ERR { return DISK_ERR; }
      clust := clst;
      res := OK;
    }

    /** Read n sectors from s0 on, and lay a changed buffer that belongs to one of them over it. */
    method ReadOver(buff: array<byte>, off: nat, s0: nat, n: nat) returns (res: FResult)
      requires fs.Valid() && Bypass(fs, s0, n) && buf.Length == 512 && buf[..] == shown && sect <= DWORD_MAX
      requires buff != buf && buff != fs.win && off + 512 * n <= buff.Length
      modifies buff
      ensures fs.Valid() && (res == OK || res == DISK_ERR) && (fs.disk.reliable ==> res == OK)
      ensures res == OK ==> buff[..] == PutBytes(old(buff[..]), off, ReadWithBuffer(St(), s0, n))
    {
      ghost var m := buff[..];
      var ok := ReadRun(fs, s0, n, buff, off);
      if ok { LayOver(buff, off, s0, n, m); }
      res := if ok then OK else DISK_ERR;
    }

    method LayOver(buff: array<byte>, off: nat, s0: nat, n: nat, ghost m: seq<byte>)
      requires buf.Length == 512 && buf[..] == shown && s0 + n <= |fs.logical| <= DWORD_MAX && sect <= DWORD_MAX
      requires buff != buf && off + 512 * n <= buff.Length == |m|
      requires buff[..] == PutBytes(m, off, Run(fs.logical, s0, n))
      modifies buff
      ensures buff[..] == PutBytes(m, off, ReadWithBuffer(St(), s0, n))
    {
      ghost var r0, r := Run(fs.logical, s0, n), ReadWithBuffer(St(), s0, n);
      assert Sub32(sect, s0) < n <==> s0 <= sect < s0 + n;
      if dirty && Sub32(sect, s0) < n {
        var p := 512 * (sect - s0);
        PutWithin(m, off, r0, p, shown);
        assert r == PutBytes(r0, p, shown);
        Overwrite(buff, off + p, buf[..]);
        assert buff[..] == PutBytes(m, off, r);
      } else {
        assert r == r0;
      }
    }

    /** On a sector boundary before the end: find the sector of the file pointer. */
    method LocateForRead() returns (res: FResult, s0: nat)
      requires Valid() && fptr < objsize && fptr % 512 == 0
      modifies this`clust, fs`wflag, fs`winsect, fs.win, fs.disk
      ensures Core() && (fs.disk.reliable ==> res == OK) && Became(old(St()), St(), old(Contents())).Sound?
      ensures res == OK ==>
                Holding(fs.geo, chain, fptr, clust) && fptr / 512 < SectorCount(fs.geo, chain)
                && s0 == SectorOf(fs.geo, chain, fptr / 512)
      ensures fs.wflag ==> old(fs.wflag)
    {
      res, s0 := OK, 0;
      var csect := Rem(fptr / 512, fs.geo.csize);
      if csect == 0 {
        res := FollowForRead();
        if res != OK { return; }
      } else {
        SameCluster(St(), clust);
        BecameNothing(St());
      }
      SectorHere(St(), clust, 1);
      s0 := Clst2Sect(fs.geo, clust);
      if s0 == 0 { res := INT_ERR; return; }
      s0 := s0 + csect;
    }

    /** Read n whole sectors directly, on a sector boundary and within the cluster. */
    method ReadDirect(buff: array<byte>, off: nat, n: nat, s0: nat) returns (res: FResult)
      requires Core() && Holding(fs.geo, chain, fptr, clust) && fptr % 512 == 0 && n > 0
      requires Rem(fptr / 512, fs.geo.csize) + n <= fs.geo.csize && fptr + 512 * n <= objsize
      requires fptr / 512 < SectorCount(fs.geo, chain) && s0 == SectorOf(fs.geo, chain, fptr / 512)
      requires buff != buf && buff != fs.win && off + 512 * n <= buff.Length
      modifies this`fptr, buff
      ensures fs.Valid() && (res == OK || res == DISK_ERR) && (fs.disk.reliable ==> res == OK)
      ensures res == OK ==>
                Valid() && fptr == old(fptr) + 512 * n && Became(old(St()), St(), old(Contents())).Sound?
                && buff[..] == PutBytes(old(buff[..]), off, old(Contents())[old(fptr)..old(fptr) + 512 * n])
    {
      hide Judge, KeepsOthers, FileBytes, SectorOf, ReadWithBuffer, SectorCount, Quot, Rem;
      hide Coherent, Mirrored, Decodes, Laid, FatLaid, AreClusters, Holding, PutBytes;
      ghost var s := St();
      Limits(s);
      SectorHere(s, clust, n);
      DirectRead(s, n);
      res := ReadOver(buff, off, s0, n);
      if res != OK { return; }
      HoldsSectors(fs.geo, chain, fptr, n, clust);
      AdvanceStep(s, fptr + 512 * n);
      fptr := fptr + 512 * n;
    }

    /** Read n bytes from the buffer, which holds the sector of the file pointer. */
    method ReadBuffered(buff: array<byte>, off: nat, n: nat)
      requires Core() && Holding(fs.geo, chain, fptr, clust) && n > 0 && fptr % 512 + n <= 512 && fptr + n <= objsize
      requires fptr / 512 < SectorCount(fs.geo, chain) && sect == SectorOf(fs.geo, chain, fptr / 512)
      requires buff != buf && buff != fs.win && off + n <= buff.Length
      modifies this`fptr, buff
      ensures Valid() && fptr == old(fptr) + n && Became(old(St()), St(), old(Contents())).Sound?
      ensures buff[..] == PutBytes(old(buff[..]), off, old(Contents())[old(fptr)..old(fptr) + n])
    {
      hide Judge, KeepsOthers, FileBytes, SectorOf, SectorCount, Quot, Rem;
      hide Coherent, Mirrored, Decodes, Laid, FatLaid, AreClusters, Holding, PutBytes;
      ghost var s := St();
      Limits(s);
      BufferRead(s, n);
      Overwrite(buff, off, buf[fptr % 512..fptr % 512 + n]);
      HoldsBytes(fs.geo, chain, fptr, n, clust);
      WithinSector(fptr, n, objsize, SectorCount(fs.geo, chain));
      AdvanceStep(s, fptr + n);
      fptr := fptr + n;
    }

    /** On a sector boundary: read whole sectors directly, or bring the sector into the buffer. */
    method ReadSectors(buff: array<byte>, off: nat, btr: nat) returns (res: FResult, rcnt: nat)
      requires Valid() && 0 < btr <= objsize - fptr && off + btr <= buff.Length && buff != buf && buff != fs.win
      requires fptr % 512 == 0
      modifies this`fptr, this`clust, this`sect, this`dirty, this`shown, buf, buff
      modifies fs`wflag, fs`winsect, fs`logical, fs.win, fs.disk
      ensures fs.Valid() && (fs.disk.reliable ==> res == OK)
      ensures res == OK ==>
                Core() && rcnt <= btr && fptr == old(fptr) + rcnt && Became(old(St()), St(), old(Contents())).Sound?
                && buff[..] == PutBytes(old(buff[..]), off, old(Contents())[old(fptr)..old(fptr) + rcnt])
      ensures res == OK && rcnt > 0 ==> Valid()
      ensures res == OK && rcnt == 0 ==>
                btr < 512 && Holding(fs.geo, chain, fptr, clust) && fptr / 512 < SectorCount(fs.geo, chain)
                && sect == SectorOf(fs.geo, chain, fptr / 512)
      ensures (fs.wflag ==> old(fs.wflag)) && (dirty ==> old(dirty))
    {
      hide Judge, Became, FileBytes, SectorOf, SectorCount, Quot, Rem;
      hide Coherent, Mirrored, Decodes, Laid, FatLaid, AreClusters, Holding, PutBytes;
      ghost var s, c := St(), Contents();
      var s0;
      rcnt := 0;
      res, s0 := LocateForRead();
      if res != OK { return; }
      ghost var t := St();
      BecameGives(s, t, c);
      var cc, csect := btr / 512, Rem(fptr / 512, fs.geo.csize);
      SectorHere(t, clust, 1);
      if cc > 0 {
        if csect + cc > fs.geo.csize { cc := fs.geo.csize - csect; }
        rcnt := 512 * cc;
        res := ReadDirect(buff, off, cc, s0);
      } else {
        res := LoadSector(s0);
        PutNothing(buff[..], off, c[fptr..fptr]);
      }
      if res == OK { BecameThen(s, t, c, St(), c); }
    }

    /** One turn of the loop of f_read. */
    method ReadChunk(buff: array<byte>, off: nat, btr: nat) returns (res: FResult, rcnt: nat)
      requires Valid() && 0 < btr <= objsize - fptr && off + btr <= buff.Length && buff != buf && buff != fs.win
      modifies this`fptr, this`clust, this`sect, this`dirty, this`shown, buf, buff
      modifies fs`wflag, fs`winsect, fs`logical, fs.win, fs.disk
      ensures fs.Valid() && (fs.disk.reliable ==> res == OK)
      ensures res == OK ==>
                Valid() && 0 < rcnt <= btr && fptr == old(fptr) + rcnt
                && Became(old(St()), St(), old(Contents())).Sound?
                && buff[..] == PutBytes(old(buff[..]), off, old(Contents())[old(fptr)..old(fptr) + rcnt])
      ensures (fs.wflag ==> old(fs.wflag)) && (dirty ==> old(dirty))
    {
      hide Judge, Became, FileBytes, SectorOf, SectorCount, Quot, Rem;
      hide Coherent, Mirrored, Decodes, Laid, FatLaid, AreClusters, Holding, PutBytes;
      ghost var s, c, m := St(), Contents(), buff[..];
      res, rcnt := OK, 0;
      if fptr % 512 == 0 {
        res, rcnt := ReadSectors(buff, off, btr);
        if res != OK || rcnt > 0 { return; }
        PutNothing(m, off, c[fptr..fptr]);
      } else {
        SameCluster(s, clust);
        BufferHere(s);
        BecameNothing(s);
      }
      ghost var u := St();
      BecameGives(s, u, c);
      rcnt := 512 - fptr % 512;
      if rcnt > btr { rcnt := btr; }
      ReadBuffered(buff, off, rcnt);
      BecameThen(s, u, c, St(), c);
    }

    /** The loop of f_read: n bytes that are there. */
    method ReadAll(buff: array<byte>, n: nat) returns (res: FResult, br: nat)
      requires Valid() && n <= objsize - fptr && n <= buff.Length && buff != buf && buff != fs.win
      modifies this`fptr, this`clust, this`sect, this`dirty, this`shown, buf, buff
      modifies fs`wflag, fs`winsect, fs`logical, fs.win, fs.disk
      ensures fs.Valid() && (fs.disk.reliable ==> res == OK)
      ensures if res == OK then br == n else br < n
      ensures res == OK ==>
                Valid() && fptr == old(fptr) + n && Became(old(St()), St(), old(Contents())).Sound?
                && buff[..] == PutBytes(old(buff[..]), 0, old(Contents())[old(fptr)..old(fptr) + n])
      ensures (fs.wflag ==> old(fs.wflag)) && (dirty ==> old(dirty))
    {
      hide Fatfs.Valid, Fatfs.Consistent;
      hide Judge, Became, FileBytes, Covers, Laid, FatLaid, Forest, Coherent, Mirrored, Decodes, Holding, PutBytes;
      ghost var s, c, m := St(), Contents(), buff[..];
      BecameNothing(s);
      PutNothing(m, 0, c[s.fptr..s.fptr]);
      res, br := OK, 0;
      while br < n
        invariant Valid() && br <= n && fptr == s.fptr + br && res == OK
        invariant Became(s, St(), c).Sound?
        invariant (fs.wflag ==> old(fs.wflag)) && (dirty ==> old(dirty))
        invariant buff[..] == PutBytes(m, 0, c[s.fptr..s.fptr + br])
      {
        ghost var t, m1 := St(), buff[..];
        BecameGives(s, t, c);
        var rcnt;
        res, rcnt := ReadChunk(buff, br, n - br);
        if res != OK { return; }
        BecameThen(s, t, c, St(), c);
        ReadOn(m, c, s.fptr, br, rcnt, m1, buff[..]);
        br := br + rcnt;
      }
    }

    /** f_read: the bytes from the file pointer on, as many as asked for and left. */
    method Read(buff: array<byte>, btr: nat) returns (res: FResult, br: nat)
      requires Usable() && btr <= buff.Length && buff != buf && buff != fs.win
      modifies this`fptr, this`clust, this`sect, this`dirty, this`shown, this`err, buf, buff
      modifies fs`wflag, fs`winsect, fs`logical, fs.win, fs.disk
      ensures Usable()
      ensures old(err) != OK ==> res == err == old(err) && br == 0
      ensures old(err) == OK && !mayRead ==> res == DENIED && br == 0 && err == OK && St() == old(St())
      ensures old(err) == OK && mayRead ==> res == err && (fs.disk.reliable ==> res == OK)
      ensures res != OK ==> br == 0 || br < btr
      ensures res == OK ==>
                br == (if btr < old(objsize - fptr) then btr else old(objsize - fptr))
                && buff[..] == PutBytes(old(buff[..]), 0, old(Contents())[old(fptr)..old(fptr) + br])
                && fptr == old(fptr) + br && objsize == old(objsize) && Became(old(St()), St(), old(Contents())).Sound?
      ensures (fs.wflag ==> old(fs.wflag)) && (dirty ==> old(dirty))
    {
      hide Judge, Became, FileBytes, Covers, Laid, FatLaid, Forest, Coherent, Mirrored, Decodes, Holding, PutBytes;
      br := 0;
      if err != OK { return err, 0; }
      if !mayRead { return DENIED, 0; }
      Limits(St());
      var left: nat := btr;
      if left > objsize - fptr { left := objsize - fptr; }
      ghost var s, c := St(), Contents();
      res, br := ReadAll(buff, left);
      if res != OK { err := res; return; }
      BecameGives(s, St(), c);
    }

    // -------------------------------------------------------------- clusters

    /** create_chain(0): the first cluster of a file that has none. */
    method StartChain() returns (r: nat)
      requires Core() && chain == []
      modifies this`chain, this`sclust
      modifies fs`wflag, fs`winsect, fs`logical, fs`fat, fs`freeClst, fs`lastClst, fs`infoDue, fs.win, fs.disk
      ensures fs.Valid() && r != FAT_INT_ERR && (r == FAT_DISK_ERR ==> !fs.disk.reliable)
      ensures r != FAT_DISK_ERR ==> Core() && Became(old(St()), St(), old(Contents())).Sound?
      ensures r == 0 ==> chain == [] && NoneFree(fs.fat)
      ensures r != 0 && r != FAT_DISK_ERR ==> chain == [r] && r >= 2
      ensures r == 0 ==> sclust == old(sclust) && fs.Calmer()
    {
      hide Judge, FileBytes, KeepsOthers, Forest, Coherent, Mirrored, Decodes, Laid, NoneFree;
      ghost var s := St();
      Limits(s);
      NoOnes(s);
      r := CreateChain(fs, 0);
      if r == FAT_DISK_ERR { return; }
      if r == 0 {
        WindowStep(s, fs.winsect);
        if fs.freeClst == 0 { NoneLeft(s); }
      } else {
        EndMark(fs.geo, fs.size);
        StartStep(s, r, Clip(fs.geo.fsType, EOC), fs.logical, fs.freeClst, fs.winsect);
        sclust, chain := r, [r];
      }
    }

    /** create_chain(clst): the cluster after clst, which is cluster i of the file; a free one is
        appended when there is none. */
    method NextOrNew(clst: nat, ghost i: nat) returns (r: nat)
      requires Core() && i < |chain| && clst == chain[i]
      modifies this`chain
      modifies fs`wflag, fs`winsect, fs`logical, fs`fat, fs`freeClst, fs`lastClst, fs`infoDue, fs.win, fs.disk
      ensures fs.Valid() && r != FAT_INT_ERR && (r == FAT_DISK_ERR ==> !fs.disk.reliable)
      ensures r != FAT_DISK_ERR ==> Core() && Became(old(St()), St(), old(Contents())).Sound?
      ensures r == 0 ==> chain == old(chain) && i == |chain| - 1 && NoneFree(fs.fat)
      ensures r != 0 && r != FAT_DISK_ERR ==> old(chain) <= chain && i + 1 < |chain| && chain[i + 1] == r && r >= 2
      ensures r != FAT_DISK_ERR && chain == old(chain) ==> fs.Calmer()
      ensures r != FAT_DISK_ERR && chain != old(chain) ==> i + 1 == |old(chain)|
    {
      hide Judge, FileBytes, KeepsOthers, Forest, Coherent, Mirrored, Decodes, Laid, NoneFree;
      ghost var s := St();
      Limits(s);
      NoOnes(s);
      ChainLink(s, i);
      r := CreateChain(fs, clst);
      if r == FAT_DISK_ERR { return; }
      if i + 1 < |chain| {
        WindowStep(s, fs.winsect);
      } else if r == 0 {
        WindowStep(s, fs.winsect);
        if fs.freeClst == 0 { NoneLeft(s); }
      } else {
        EndMark(fs.geo, fs.size);
        ExtendStep(s, r, Clip(fs.geo.fsType, EOC), fs.logical, fs.freeClst, fs.winsect);
        chain := chain + [r];
      }
    }

    // -------------------------------------------------------------- f_write

    /** The file pointer is at the end of the last cluster and no cluster is free. */
    ghost predicate Full()
      reads this, fs
    {
      NoneFree(fs.fat) && fptr == 512 * SectorCount(fs.geo, chain)
    }

    /** On a cluster boundary: go to the cluster of the file pointer, appending one if there is none. */
    method FollowForWrite() returns (res: FResult, full: bool)
      requires Valid() && fptr % 512 == 0 && Rem(fptr / 512, fs.geo.csize) == 0
      modifies this`chain, this`sclust, this`clust
      modifies fs`wflag, fs`winsect, fs`logical, fs`fat, fs`freeClst, fs`lastClst, fs`infoDue, fs.win, fs.disk
      ensures fs.Valid() && (fs.disk.reliable ==> res == OK)
      ensures res == OK ==> Core() && Became(old(St()), St(), old(Contents())).Sound?
      ensures res == OK && full ==> Valid() && Full()
      ensures res == OK && !full ==> Holding(fs.geo, chain, fptr, clust)
    {
      hide Fatfs.Valid, Fatfs.Consistent, Became;
      hide Judge, FileBytes, KeepsOthers, Forest, Coherent, Mirrored, Decodes, Laid, NoneFree, Quot, Rem;
      ghost var s := St();
      Limits(s);
      res, full := OK, false;
      var clst;
      ghost var i := 0;
      if fptr == 0 {
        BecameNothing(s);
        clst := sclust;
        HeadCluster(s);
        if clst == 0 { clst := StartChain(); }
      } else {
        i := Quot((fptr - 1) / 512, fs.geo.csize) + 1;
        AfterBoundary(fs.geo, fptr);
        clst := NextOrNew(clust, i - 1);
      }
      if clst == 0 { return OK, true; }
      if clst == FAT_INT_ERR { return INT_ERR, false; }
      if clst == FAT_DISK_ERR { return DISK_ERR, false; }
      clust := clst;
    }

    /** On a sector boundary: write a changed buffer back and find the sector of the file pointer. */
    method LocateForWrite() returns (res: FResult, full: bool, s0: nat)
      requires Valid() && fptr % 512 == 0
      modifies this`chain, this`sclust, this`clust, this`dirty
      modifies fs`wflag, fs`winsect, fs`logical, fs`fat, fs`freeClst, fs`lastClst, fs`infoDue, fs.win, fs.disk
      ensures fs.Valid() && (fs.disk.reliable ==> res == OK)
      ensures res == OK ==> Core() && Became(old(St()), St(), old(Contents())).Sound?
      ensures res == OK && full ==> Valid() && Full()
      ensures res == OK && !full ==>
                !dirty && Holding(fs.geo, chain, fptr, clust) && Bypass(fs, s0, 1)
                && fptr / 512 < SectorCount(fs.geo, chain) && s0 == SectorOf(fs.geo, chain, fptr / 512)
    {
      hide Holding, SectorCount, Clst2Sect;
      hide Judge, FileBytes, Became, Coherent, Mirrored, Decodes, Laid, NoneFree, Quot, SectorOf;
      ghost var s, c := St(), Contents();
      Limits(s);
      res, full, s0 := OK, false, 0;
      var csect := Rem(fptr / 512, fs.geo.csize);
      if csect == 0 {
        res, full := FollowForWrite();
        if res != OK || full { return; }
      } else {
        SameCluster(s, clust);
        BecameNothing(s);
      }
      ghost var t := St();
      BecameGives(s, t, c);
      res := Flush();
      if res != OK { return; }
      BecameThen(s, t, c, St(), c);
      SectorHere(St(), clust, 1);
      s0 := Clst2Sect(fs.geo, clust);
      if s0 == 0 { res := INT_ERR; return; }
      s0 := s0 + csect;
    }

    /** Write whole sectors directly, on a sector boundary and within the cluster, and refill the
        buffer when it holds one of them. */
    method WriteDirect(data: seq<byte>, s0: nat) returns (res: FResult)
      requires Core() && !dirty && Holding(fs.geo, chain, fptr, clust) && fptr % 512 == 0
      requires |data| > 0 && |data| % 512 == 0 && Rem(fptr / 512, fs.geo.csize) + |data| / 512 <= fs.geo.csize
      requires fptr + |data| <= DWORD_MAX && fptr / 512 < SectorCount(fs.geo, chain)
      requires s0 == SectorOf(fs.geo, chain, fptr / 512)
      modifies this`fptr, this`objsize, this`shown, buf, fs`logical, fs.disk
      ensures fs.Valid() && (res == OK || res == DISK_ERR) && (fs.disk.reliable ==> res == OK)
      ensures res == OK ==>
                Valid() && fptr == old(fptr) + |data|
                && Became(old(St()), St(), Splice(old(Contents()), old(fptr), data)).Sound?
    {
      hide Fatfs.Valid, Fatfs.Consistent;
      hide Judge, FileBytes, Became, Coherent, Mirrored, Decodes, Laid, Quot, Rem, SectorOf, Splice, Holding;
      hide PutRun, FatLaid, Covers, SectorCount, Owns, Became;
      ghost var s := St();
      var n := |data| / 512;
      Limits(s);
      SectorHere(s, clust, n);
      var ok := WriteRun(fs, data, s0);
      if !ok { return DISK_ERR; }
      if Sub32(sect, s0) < n { Refill(data, s0); }
      HoldsSectors(fs.geo, chain, fptr, n, clust);
      fptr := fptr + |data|;
      if fptr > objsize { objsize := fptr; }
      assert St() == Overwritten(s, s0, data);
      OverwriteStep(s, s0, data);
      BecameGives(s, St(), Splice(FileBytes(s), s.fptr, data));
      res := OK;
    }

    method Refill(data: seq<byte>, s0: nat)
      requires buf.Length == 512 && s0 <= sect && 512 * (sect - s0) + 512 <= |data|
      modifies this`shown, buf
      ensures shown == data[512 * (sect - s0)..512 * (sect - s0) + 512] == buf[..]
    {
      var d := data[512 * (sect - s0)..512 * (sect - s0) + 512];
      Overwrite(buf, 0, d);
      shown := d;
    }

    /** Put bytes in the buffer, which is to hold sector s0, that of the file pointer. */
    method StoreBuffered(data: seq<byte>, s0: nat)
      requires Core() && Holding(fs.geo, chain, fptr, clust) && |data| > 0 && fptr % 512 + |data| <= 512
      requires fptr + |data| <= DWORD_MAX && fptr / 512 < SectorCount(fs.geo, chain)
      requires s0 == SectorOf(fs.geo, chain, fptr / 512)
      requires sect == s0 || (fptr % 512 == 0 && fptr == objsize && !dirty)
      modifies this`sect, this`shown, this`dirty, this`fptr, this`objsize, buf
      ensures Valid() && fptr == old(fptr) + |data|
      ensures Became(old(St()), St(), Splice(old(Contents()), old(fptr), data)).Sound?
    {
      hide Judge, FileBytes, KeepsOthers, Coherent, Mirrored, Decodes, Laid, Quot, Rem, SectorOf, Splice, Holding;
      ghost var s := St();
      StoreStep(s, s0, data);
      HoldsBytes(fs.geo, chain, fptr, |data|, clust);
      sect := s0;
      Overwrite(buf, fptr % 512, data);
      shown := buf[..];
      dirty := true;
      fptr := fptr + |data|;
      if fptr > objsize { objsize := fptr; }
      assert St() == Stored(s, s0, data);
    }

    /** On a sector boundary, one turn of the loop of f_write: whole sectors directly, or less than a
        sector by way of the buffer. */
    method WriteAligned(data: seq<byte>) returns (res: FResult, full: bool, wcnt: nat)
      requires Valid() && fptr % 512 == 0 && |data| > 0 && fptr + |data| <= DWORD_MAX
      modifies this`chain, this`sclust, this`clust, this`sect, this`dirty, this`fptr, this`objsize, this`shown, buf
      modifies fs`wflag, fs`winsect, fs`logical, fs`fat, fs`freeClst, fs`lastClst, fs`infoDue, fs.win, fs.disk
      ensures fs.Valid() && (fs.disk.reliable ==> res == OK)
      ensures res == OK ==>
                Valid() && wcnt <= |data| && fptr == old(fptr) + wcnt
                && (if full then wcnt == 0 && Full() else wcnt > 0)
                && Became(old(St()), St(), Splice(old(Contents()), old(fptr), data[..wcnt])).Sound?
    {
      hide Fatfs.Valid, Fatfs.Consistent;
      hide Judge, FileBytes, KeepsOthers, Coherent, Mirrored, Decodes, Laid, Quot, Rem, SectorOf, Splice, Holding;
      hide NoneFree;
      hide SectorCount;
      ghost var s, c := St(), Contents();
      Limits(s);
      SpliceNone(c, fptr);
      assert data[..0] == [] && data[..|data|] == data;
      wcnt := 0;
      var s0;
      res, full, s0 := LocateForWrite();
      if res != OK || full { return; }
      ghost var t := St();
      var cc, csect := |data| / 512, Rem(fptr / 512, fs.geo.csize);
      if cc > 0 {
        if csect + cc > fs.geo.csize { cc := fs.geo.csize - csect; }
        wcnt := 512 * cc;
        res := WriteDirect(data[..wcnt], s0);
        if res == OK { BecameThen(s, t, c, St(), Splice(c, s.fptr, data[..wcnt])); }
        return;
      }
      if sect != s0 && fptr < objsize {
        res := ReplaceBuffer(s0, fptr / 512);
        if res != OK { return; }
        BecameThen(s, t, c, St(), c);
      }
      ghost var u := St();
      Limits(u);
      StoreBuffered(data, s0);
      wcnt := |data|;
      BecameThen(s, u, c, St(), Splice(c, s.fptr, data));
    }

    /** One turn of the loop of f_write. */
    method WriteChunk(data: seq<byte>) returns (res: FResult, full: bool, wcnt: nat)
      requires Valid() && |data| > 0 && fptr + |data| <= DWORD_MAX
      modifies this`chain, this`sclust, this`clust, this`sect, this`dirty, this`fptr, this`objsize, this`shown, buf
      modifies fs`wflag, fs`winsect, fs`logical, fs`fat, fs`freeClst, fs`lastClst, fs`infoDue, fs.win, fs.disk
      ensures fs.Valid() && (fs.disk.reliable ==> res == OK)
      ensures res == OK ==>
                Valid() && wcnt <= |data| && fptr == old(fptr) + wcnt
                && (if full then wcnt == 0 && Full() else wcnt > 0)
                && Became(old(St()), St(), Splice(old(Contents()), old(fptr), data[..wcnt])).Sound?
    {
      if fptr % 512 == 0 {
        res, full, wcnt := WriteAligned(data);
      } else {
        hide Judge, FileBytes, KeepsOthers, Coherent, Mirrored, Decodes, Laid, Quot, Rem, SectorOf, Splice, Holding;
        hide NoneFree;
        SameCluster(St(), clust);
        BufferCluster(St(), clust);
        res, full, wcnt := OK, false, 512 - fptr % 512;
        if wcnt > |data| { wcnt := |data|; }
        StoreBuffered(data[..wcnt], sect);
      }
    }

    /** The loop of f_write. */
    method WriteAll(data: seq<byte>) returns (res: FResult, bw: nat)
      requires Valid() && fptr + |data| <= DWORD_MAX
      modifies this`chain, this`sclust, this`clust, this`sect, this`dirty, this`fptr, this`objsize, this`shown, buf
      modifies fs`wflag, fs`winsect, fs`logical, fs`fat, fs`freeClst, fs`lastClst, fs`infoDue, fs.win, fs.disk
      ensures fs.Valid() && (fs.disk.reliable ==> res == OK) && (res != OK ==> bw < |data|)
      ensures res == OK ==>
                Valid() && bw <= |data| && fptr == old(fptr) + bw && (bw < |data| ==> Full())
                && Became(old(St()), St(), Splice(old(Contents()), old(fptr), data[..bw])).Sound?
    {
      hide Judge, FileBytes, KeepsOthers, Coherent, Mirrored, Decodes, Laid, Splice, Holding, NoneFree, SectorCount;
      ghost var s, c := St(), Contents();
      Limits(s);
      res, bw := OK, 0;
      var btw := |data|;
      BecameNothing(s);
      SpliceNone(c, fptr);
      while btw > 0
        invariant Valid() && res == OK && 0 <= btw && bw + btw == |data| && fptr == s.fptr + bw
        invariant Became(s, St(), Splice(c, s.fptr, data[..bw])).Sound?
      {
        var full, wcnt;
        ghost var t := St();
        res, full, wcnt := WriteChunk(data[bw..]);
        if res != OK { return; }
        WriteOn(c, s.fptr, data, bw, wcnt);
        BecameThen(s, t, Splice(c, s.fptr, data[..bw]), St(), Splice(c, s.fptr, data[..bw + wcnt]));
        bw, btw := bw + wcnt, btw - wcnt;
        if full { return; }
      }
    }

    /** f_write: data over the bytes from the file pointer on, growing the file as needed; short only
        at the largest file size or when no cluster is free. */
    method Write(buff: seq<byte>) returns (res: FResult, bw: nat)
      requires Usable() && |buff| <= DWORD_MAX
      modifies this`chain, this`sclust, this`clust, this`sect, this`dirty, this`fptr, this`objsize, this`shown, this`err
      modifies this`modified, buf
      modifies fs`wflag, fs`winsect, fs`logical, fs`fat, fs`freeClst, fs`lastClst, fs`infoDue, fs.win, fs.disk
      ensures Usable()
      ensures old(err) != OK ==> res == err == old(err) && bw == 0
      ensures old(err) == OK && !mayWrite ==>
                res == DENIED && bw == 0 && err == OK && St() == old(St()) && modified == old(modified)
                && fs.wflag == old(fs.wflag) && fs.infoDue == old(fs.infoDue)
      ensures old(err) == OK && mayWrite ==> res == err && (fs.disk.reliable ==> res == OK)
      ensures res != OK && buff != [] ==> bw < |buff|
      ensures res == OK ==>
                bw <= Writable(old(fptr), |buff|) && fptr == old(fptr) + bw && modified
                && (bw < Writable(old(fptr), |buff|) ==> Full())
                && Became(old(St()), St(), Splice(old(Contents()), old(fptr), buff[..bw])).Sound?
    {
      hide Judge, FileBytes, KeepsOthers, Coherent, Mirrored, Decodes, Laid, Splice, Holding, NoneFree, SectorCount;
      if err != OK { return err, 0; }
      if !mayWrite { return DENIED, 0; }
      Limits(St());
      var btw := |buff|;
      if (fptr + btw) % 0x1_0000_0000 < fptr { btw := DWORD_MAX - fptr; }
      res, bw := WriteAll(buff[..btw]);
      if res != OK { err := res; return; }
      assert buff[..btw][..bw] == buff[..bw];
      modified := true;
    }

    // -------------------------------------------------------------- f_lseek

    /** Where to start following the chain to position ofs: at the current cluster when that is not
        behind it, else at the first one, which is created if there is none. */
    method SeekStart(ofs: nat) returns (res: FResult, clst: nat, pos: nat, ghost k: nat)
      requires Valid() && ofs > 0
      modifies this`chain, this`sclust, this`clust
      modifies fs`wflag, fs`winsect, fs`logical, fs`fat, fs`freeClst, fs`lastClst, fs`infoDue, fs.win, fs.disk
      ensures fs.Valid() && (fs.disk.reliable ==> res == OK)
      ensures res == OK ==> Core() && Became(old(St()), St(), old(Contents())).Sound?
      ensures res == OK && clst == 0 ==> chain == [] && NoneFree(fs.fat) && pos == 0
      ensures res == OK && clst != 0 ==>
                k < |chain| && clust == clst == chain[k] && pos == 512 * ClusterSectors(fs.geo.csize, k) < ofs
      ensures res == OK ==>
                if chain == old(chain) then sclust == old(sclust) && fs.Calmer()
                else old(chain) == [] && clst != 0
    {
      hide Judge, FileBytes, KeepsOthers, Forest, Coherent, Mirrored, Decodes, Laid, NoneFree;
      hide Quot, Rem, ClusterSectors, Holding;
      Limits(St());
      HeadCluster(St());
      BecameNothing(St());
      res, pos, k := OK, 0, 0;
      NoSectors(fs.geo.csize);
      if fptr > 0 && Quot((ofs - 1) / 512, fs.geo.csize) >= Quot((fptr - 1) / 512, fs.geo.csize) {
        ClusterStart(St(), clust, ofs);
        k := Quot((fptr - 1) / 512, fs.geo.csize);
        pos := 512 * ((fptr - 1) / 512 - Rem((fptr - 1) / 512, fs.geo.csize));
        clst := clust;
      } else {
        clst := sclust;
        if clst == 0 {
          clst := StartChain();
          if clst == FAT_INT_ERR { res := INT_ERR; return; }
          if clst == FAT_DISK_ERR { res := DISK_ERR; return; }
        }
        clust := clst;
      }
    }

    /** One step along the chain: when writing is allowed the chain grows as needed. */
    method SeekNext(clst: nat, ghost k: nat, ghost target: nat) returns (res: FResult, next: nat)
      requires Core() && k < |chain| && clst == chain[k]
      requires mayWrite || 512 * ClusterSectors(fs.geo.csize, k + 1) < target <= objsize
      modifies this`chain
      modifies fs`wflag, fs`winsect, fs`logical, fs`fat, fs`freeClst, fs`lastClst, fs`infoDue, fs.win, fs.disk
      ensures fs.Valid() && (fs.disk.reliable ==> res == OK)
      ensures res == OK ==> Core() && Became(old(St()), St(), old(Contents())).Sound?
      ensures res == OK && next == 0 ==> mayWrite && chain == old(chain) && k == |chain| - 1 && NoneFree(fs.fat)
      ensures res == OK && next != 0 ==> k + 1 < |chain| && next == chain[k + 1]
      ensures res == OK && chain == old(chain) ==> fs.Calmer()
      ensures res == OK && chain != old(chain) ==> k + 1 == |old(chain)| && next != 0
    {
      hide Judge, FileBytes, KeepsOthers, Forest, Coherent, Mirrored, Decodes, Laid, NoneFree;
      ghost var s := St();
      res := OK;
      if mayWrite {
        next := NextOrNew(clst, k);
        if next == 0 { return; }
      } else {
        MoreClusters(s, k, target);
        ChainLink(s, k);
        next := GetFat(fs, clst);
        WindowStep(s, fs.winsect);
      }
      if next == FAT_DISK_ERR { res := DISK_ERR; return; }
      Limits(St());
      if next <= 1 || next >= fs.geo.nFatent { res := INT_ERR; return; }
    }

    /** The loop of f_lseek: follow the chain from cluster k0 on; ofs is what is left to go in the last
        cluster, and 0 behind it when the volume is full. */
    method SeekLoop(start: nat, from: nat, target: nat, ghost k0: nat)
      returns (res: FResult, pos: nat, ofs: nat, ghost k: nat)
      requires Core() && k0 < |chain| && clust == start == chain[k0] && target <= DWORD_MAX
      requires from == 512 * ClusterSectors(fs.geo.csize, k0) < target && (mayWrite || target <= objsize)
      modifies this`chain, this`clust
      modifies fs`wflag, fs`winsect, fs`logical, fs`fat, fs`freeClst, fs`lastClst, fs`infoDue, fs.win, fs.disk
      ensures fs.Valid() && (fs.disk.reliable ==> res == OK)
      ensures res == OK ==>
                Core() && Became(old(St()), St(), old(Contents())).Sound? && k < |chain| && clust == chain[k]
      ensures res == OK && pos + ofs == target ==>
                pos == 512 * ClusterSectors(fs.geo.csize, k) && 0 < ofs <= 512 * fs.geo.csize
      ensures res == OK && pos + ofs != target ==>
                pos < target && ofs == 0 && k + 1 == |chain| && mayWrite && NoneFree(fs.fat)
                && pos == 512 * ClusterSectors(fs.geo.csize, k) + 512 * fs.geo.csize
      ensures res == OK ==> if chain == old(chain) then fs.Calmer() else k >= |old(chain)|
    {
      hide Fatfs.Valid, Fatfs.Consistent;
      hide Judge, FileBytes, Became, Forest, Coherent, Mirrored, Decodes, Laid, NoneFree;
      hide Owns, Holding, ClusterSectors, Quot, Rem;
      ghost var s, c := St(), Contents();
      BecameNothing(s);
      Limits(s);
      res, pos, ofs, k := OK, from, target - from, k0;
      var clst, bcs := start, 512 * fs.geo.csize;
      while ofs > bcs
        invariant Core() && Became(s, St(), c).Sound? && res == OK
        invariant k < |chain| && clust == clst == chain[k] && pos == 512 * ClusterSectors(fs.geo.csize, k)
        invariant 0 < ofs && pos + ofs == target
        invariant if chain == old(chain) then fs.Calmer() else k >= |old(chain)|
      {
        ghost var t := St();
        BecameGives(s, t, c);
        NextStart(fs.geo, k);
        ofs, pos := ofs - bcs, pos + bcs;
        res, clst := SeekNext(clst, k, target);
        if res != OK { return; }
        BecameThen(s, t, c, St(), c);
        if clst == 0 { ofs := 0; return; }
        clust, k := clst, k + 1;
      }
    }

    /** Follow the chain from the start of cluster k to position `target`, or to the end of the last
        cluster when the volume is full; nsect is the sector of the position reached, when that is
        inside one. */
    method SeekFollow(start: nat, from: nat, target: nat, ghost k0: nat)
      returns (res: FResult, pos: nat, nsect: nat, ghost k: nat)
      requires Core() && k0 < |chain| && clust == start == chain[k0] && target <= DWORD_MAX
      requires from == 512 * ClusterSectors(fs.geo.csize, k0) < target && (mayWrite || target <= objsize)
      modifies this`chain, this`clust
      modifies fs`wflag, fs`winsect, fs`logical, fs`fat, fs`freeClst, fs`lastClst, fs`infoDue, fs.win, fs.disk
      ensures fs.Valid() && (fs.disk.reliable ==> res == OK)
      ensures res == OK ==> Core() && Became(old(St()), St(), old(Contents())).Sound?
      ensures res == OK ==> k < |chain| && clust == chain[k] && InStretch(fs.geo, k, pos) && pos <= target
      ensures res == OK && pos < target ==> mayWrite && NoneFree(fs.fat) && pos == 512 * SectorCount(fs.geo, chain)
      ensures res == OK && pos % 512 != 0 ==>
                nsect == Clst2Sect(fs.geo, clust) + (pos - 512 * ClusterSectors(fs.geo.csize, k)) / 512
      ensures res == OK ==> pos > 0
      ensures res == OK ==>
                if chain == old(chain) then fs.Calmer()
                else pos > 512 * ClusterSectors(fs.geo.csize, |old(chain)|)
    {
      hide Judge, FileBytes, Became, Forest, Coherent, Mirrored, Decodes, Laid, NoneFree;
      hide Clst2Sect, Owns, Holding, ClusterSectors, InStretch, Quot, Rem;
      ghost var n := |chain|;
      nsect := 0;
      var ofs;
      res, pos, ofs, k := SeekLoop(start, from, target, k0);
      if res != OK { return; }
      Limits(St());
      NextStart(fs.geo, k);
      AllSectors(fs.geo, chain);
      ghost var far := if ofs == 0 then 512 * fs.geo.csize else ofs;
      pos := pos + ofs;
      InStretchIs(fs.geo, k, pos, far);
      PastClusters(fs.geo.csize, n, k, pos);
      if ofs % 512 != 0 {
        ClusterHasSector(St(), k);
        nsect := Clst2Sect(fs.geo, clust);
        if nsect == 0 { res := INT_ERR; return; }
        nsect := nsect + ofs / 512;
      }
    }

    /** The end of f_lseek: the file pointer moves to pos, and the file grows to it if needed. */
    method SeekSet(pos: nat, nsect: nat) returns (res: FResult)
      requires Core() && pos <= DWORD_MAX && Covers(fs.geo, chain, pos)
      requires pos > 0 ==> Holding(fs.geo, chain, pos - 1, clust)
      requires pos % 512 != 0 ==> pos / 512 < SectorCount(fs.geo, chain) && nsect == SectorOf(fs.geo, chain, pos / 512)
      modifies this`objsize, this`modified, this`dirty, this`sect, this`shown, this`fptr, buf, fs`logical, fs.disk
      ensures fs.Valid() && (fs.disk.reliable ==> res == OK)
      ensures res == OK ==>
                Valid() && fptr == pos && objsize == Max(old(objsize), pos)
                && modified == (old(modified) || pos > old(objsize))
                && Became(old(St()), St(), Contents()).Sound? && Contents()[..old(objsize)] == old(Contents())
      ensures dirty ==> old(dirty)
    {
      hide Judge, FileBytes, KeepsOthers, Coherent, Mirrored, Decodes, Laid, FatLaid, Holding, Covers, SectorCount;
      hide SectorOf;
      ghost var s, c := St(), Contents();
      BecameNothing(s);
      Limits(s);
      if pos > objsize {
        GrowStep(s, pos);
        objsize := pos;
        modified := true;
      }
      ghost var t, d := St(), Contents();
      assert d[..s.size] == c;
      res := OK;
      if pos % 512 != 0 && nsect != sect {
        res := LoadAt(pos, nsect);
        if res != OK { return; }
      } else {
        AdvanceStep(t, pos);
        fptr := pos;
      }
      BecameThen(s, t, d, St(), d);
    }

    /** Bring the sector of position pos into the buffer, writing a changed one back first, and move there. */
    method LoadAt(pos: nat, nsect: nat) returns (res: FResult)
      requires Core() && pos <= objsize
      requires pos / 512 < SectorCount(fs.geo, chain) && nsect == SectorOf(fs.geo, chain, pos / 512)
      modifies this`dirty, this`sect, this`shown, this`fptr, buf, fs`logical, fs.disk
      ensures fs.Valid() && (fs.disk.reliable ==> res == OK)
      ensures res == OK ==> Core() && fptr == pos && Became(old(St()), St(), old(Contents())).Sound?
      ensures dirty ==> old(dirty)
    {
      hide Judge, FileBytes, KeepsOthers, Coherent, Mirrored, Decodes, Laid, FatLaid, Holding, SectorCount, SectorOf;
      ghost var s, c := St(), Contents();
      res := Flush();
      if res != OK { return; }
      ghost var t := St();
      OwnSector(t, pos / 512);
      var ok := ReadSector(fs, nsect, buf);
      if !ok { return DISK_ERR; }
      sect := nsect;
      shown := buf[..];
      fptr := pos;
      SeekStep(t, pos, shown);
      BecameThen(s, t, c, St(), c);
    }

    /** f_lseek: move the file pointer to ofs; when writing is allowed the file grows to it, as far as
        there are free clusters, and else it stops at the end. */
    method Lseek(ofs: nat) returns (res: FResult)
      requires Usable() && ofs <= DWORD_MAX
      modifies this`chain, this`sclust, this`clust, this`sect, this`dirty, this`fptr, this`objsize, this`shown, this`err
      modifies this`modified, buf
      modifies fs`wflag, fs`winsect, fs`logical, fs`fat, fs`freeClst, fs`lastClst, fs`infoDue, fs.win, fs.disk
      ensures Usable()
      ensures old(err) != OK ==> res == err == old(err)
      ensures old(err) == OK ==> res == err && (fs.disk.reliable ==> res == OK)
      ensures res == OK ==>
                var target := if mayWrite || ofs <= old(objsize) then ofs else old(objsize);
                fptr <= target && (fptr < target ==> mayWrite && Full()) && objsize == Max(old(objsize), fptr)
                && modified == (old(modified) || fptr > old(objsize))
                && Became(old(St()), St(), Contents()).Sound? && Contents()[..old(objsize)] == old(Contents())
      ensures res == OK && !modified ==> sclust == old(sclust) && fs.Calmer() && (dirty ==> old(dirty))
    {
      hide Judge, FileBytes, KeepsOthers, Coherent, Mirrored, Decodes, Laid, FatLaid, Holding, Covers, SectorCount;
      hide SectorOf;
      if err != OK { return err; }
      ghost var s, c := St(), Contents();
      Limits(s);
      var target: nat := ofs;
      if target > objsize && !mayWrite { target := objsize; }
      var pos, nsect;
      res, pos, nsect := SeekTo(target);
      if res != OK { err := res; return; }
      ghost var t := St();
      assert |FileBytes(t)| == |c|;
      res := SeekSet(pos, nsect);
      if res != OK { err := res; return; }
      BecameThen(s, t, c, St(), Contents());
    }

    method SeekTo(target: nat) returns (res: FResult, pos: nat, nsect: nat)
      requires Valid() && target <= DWORD_MAX && (mayWrite || target <= objsize)
      modifies this`chain, this`sclust, this`clust
      modifies fs`wflag, fs`winsect, fs`logical, fs`fat, fs`freeClst, fs`lastClst, fs`infoDue, fs.win, fs.disk
      ensures fs.Valid() && (fs.disk.reliable ==> res == OK)
      ensures res == OK ==> Core() && Became(old(St()), St(), old(Contents())).Sound?
      ensures res == OK ==>
                pos <= target && Covers(fs.geo, chain, pos) && (pos > 0 ==> Holding(fs.geo, chain, pos - 1, clust))
                && (pos % 512 != 0 ==>
                    pos / 512 < SectorCount(fs.geo, chain) && nsect == SectorOf(fs.geo, chain, pos / 512))
                && (pos < target ==> mayWrite && NoneFree(fs.fat) && pos == 512 * SectorCount(fs.geo, chain))
      ensures res == OK ==>
                if chain == old(chain) then sclust == old(sclust) && fs.Calmer()
                else pos > old(objsize)
    {
      hide Fatfs.Valid, Fatfs.Consistent;
      hide Judge, FileBytes, Became, Forest, Coherent, Mirrored, Decodes, Laid, NoneFree, Holding, SectorOf;
      hide Covers, ClusterSectors, SectorCount, Clst2Sect, InStretch, Quot;
      ghost var s, c := St(), Contents();
      BecameNothing(s);
      SoundCovers(s);
      res, pos, nsect := OK, 0, 0;
      if target > 0 {
        var clst;
        ghost var k;
        res, clst, pos, k := SeekStart(target);
        if res != OK { return; }
        ghost var t := St();
        BecameGives(s, t, c);
        SoundCovers(t);
        if clst != 0 {
          res, pos, nsect, k := SeekFollow(clst, pos, target, k);
          if res != OK { return; }
          BecameThen(s, t, c, St(), c);
          SoundCovers(St());
          StretchEnd(fs.geo, chain, k, pos);
        }
      }
    }

    // -------------------------------------------------------------- f_open in append mode

    /** The end of f_open when the file is to be appended to: move to the end of the file. */
    method SeekEnd() returns (res: FResult)
      requires Valid() && fptr == 0 && !dirty
      modifies this`clust, this`sect, this`fptr, this`shown, buf, fs`wflag, fs`winsect, fs.win, fs.disk
      ensures fs.Valid() && (fs.disk.reliable ==> res == OK)
      ensures res == OK ==> Valid() && fptr == objsize && Became(old(St()), St(), old(Contents())).Sound?
    {
      hide Judge, FileBytes, KeepsOthers, Forest, Coherent, Mirrored, Decodes, Laid, Holding, Covers, SectorOf;
      ghost var s, c := St(), Contents();
      BecameNothing(s);
      res := OK;
      if objsize > 0 {
        var sc;
        ghost var k;
        res, sc, k := FollowToEnd();
        if res != OK { return; }
        ghost var t := St();
        Limits(t);
        StretchEnd(fs.geo, chain, k, objsize);
        res := LoadEnd(sc);
        if res == OK { BecameThen(s, t, c, St(), c); }
      }
    }

    /** Move to the end of the file, whose sector sc comes into the buffer when it ends inside one. */
    method LoadEnd(sc: nat) returns (res: FResult)
      requires Core() && !dirty
      requires objsize % 512 != 0 ==>
                 objsize / 512 < SectorCount(fs.geo, chain) && sc == SectorOf(fs.geo, chain, objsize / 512)
      modifies this`sect, this`fptr, this`shown, buf
      ensures fs.Valid() && (fs.disk.reliable ==> res == OK)
      ensures res == OK ==> Core() && fptr == objsize && Became(old(St()), St(), old(Contents())).Sound?
    {
      hide Judge, FileBytes, KeepsOthers, Forest, Coherent, Mirrored, Decodes, Laid, Holding, Covers, SectorOf;
      ghost var t := St();
      if objsize % 512 != 0 {
        OwnSector(t, objsize / 512);
        var ok := ReadSector(fs, sc, buf);
        if !ok { return DISK_ERR; }
        sect, shown := sc, buf[..];
        fptr := objsize;
        SeekStep(t, objsize, shown);
      } else {
        fptr := objsize;
        AdvanceStep(t, objsize);
      }
      res := OK;
    }

    /** Follow the chain to the cluster of the last byte; sc is the sector after it, when the file ends
        inside one. */
    method FollowToEnd() returns (res: FResult, sc: nat, ghost k: nat)
      requires Valid() && objsize > 0
      modifies this`clust, fs`wflag, fs`winsect, fs.win, fs.disk
      ensures fs.Valid() && (fs.disk.reliable ==> res == OK)
      ensures Core() && Became(old(St()), St(), old(Contents())).Sound?
      ensures res == OK ==> k < |chain| && clust == chain[k] && InStretch(fs.geo, k, objsize)
      ensures res == OK && objsize % 512 != 0 ==>
                sc == Clst2Sect(fs.geo, clust) + (objsize - 512 * ClusterSectors(fs.geo.csize, k)) / 512
    {
      hide Fatfs.Valid, Fatfs.Consistent;
      hide Judge, FileBytes, KeepsOthers, Forest, Coherent, Mirrored, Decodes, Laid, Clst2Sect;
      ghost var s, c := St(), Contents();
      BecameNothing(s);
      HeadCluster(s);
      Limits(s);
      res, sc, k := OK, 0, 0;
      var clst, ofs, bcs := sclust, objsize, 512 * fs.geo.csize;
      while res == OK && ofs > bcs
        invariant Core() && Became(s, St(), c).Sound?
        invariant fs.disk.reliable ==> res == OK
        invariant res == OK ==>
                    k < |chain| && clst == chain[k] && 0 < ofs && ofs + 512 * ClusterSectors(fs.geo.csize, k) == objsize
        decreases ofs
      {
        ghost var t := St();
        MoreClusters(t, k, objsize);
        ChainLink(t, k);
        clst := GetFat(fs, clst);
        WindowStep(t, fs.winsect);
        BecameThen(s, t, c, St(), c);
        if clst <= 1 { res := INT_ERR; }
        if clst == FAT_DISK_ERR { res := DISK_ERR; }
        ofs, k := ofs - bcs, k + 1;
      }
      clust := clst;
      if res == OK && ofs % 512 != 0 {
        ClusterHasSector(St(), k);
        sc := Clst2Sect(fs.geo, clst);
        if sc == 0 { res := INT_ERR; } else { sc := sc + ofs / 512; }
      }
    }

    // -------------------------------------------------------------- f_truncate

    /** Free the clusters behind the file pointer. */
    method CutChain(ghost k: nat) returns (res: FResult)
      requires Valid() && fptr < objsize && k == ClustersFor(fs.geo, fptr)
      modifies this`sclust
      modifies fs`wflag, fs`winsect, fs`logical, fs`fat, fs`freeClst, fs`infoDue, fs.win, fs.disk
      ensures fs.Valid() && (fs.disk.reliable ==> res == OK)
      ensures res == OK ==>
                MayCut(old(St()), k, Clip(fs.geo.fsType, EOC), fs.fat, fs.logical, fs.freeClst, fs.winsect)
                && sclust == if k == 0 then 0 else old(sclust)
    {
      hide Judge, FileBytes, KeepsOthers, Forest, Coherent, Mirrored, Decodes, Laid;
      hide CutFat, CountOk, Unlink, ClustersFor, Holding;
      ghost var s, e := St(), Clip(fs.geo.fsType, EOC);
      Limits(s);
      EndMark(fs.geo, fs.size);
      CutAt(s, clust);
      if fptr == 0 {
        HeadCluster(s);
        CutUnlinks(s, 0, e);
        res := RemoveChain(fs, sclust, 0);
        sclust := 0;
      } else {
        ChainLink(s, k - 1);
        var ncl := GetFat(fs, clust);
        res := OK;
        if ncl == FAT_DISK_ERR { res := DISK_ERR; }
        if ncl == 1 { res := INT_ERR; }
        if res == OK && ncl < fs.geo.nFatent {
          CutUnlinks(s, k, e);
          res := RemoveChain(fs, ncl, clust);
        } else {
          CutNothing(s, e);
        }
      }
    }

    /** Write a changed buffer back to a sector that is in no FAT and not in the window. */
    method WriteBack() returns (res: FResult)
      requires fs.Valid() && buf != fs.win && buf.Length == 512 && buf[..] == shown
      requires dirty ==>
                 fs.geo.fatbase <= sect < |fs.logical| && !fs.geo.InFat(sect) && !fs.geo.InMirror(sect)
                 && sect != fs.winsect
      modifies this`dirty, fs`logical, fs.disk
      ensures fs.Valid() && (res == OK || res == DISK_ERR) && (fs.disk.reliable ==> res == OK)
      ensures res == OK ==> !dirty && fs.logical == Viewed(old(fs.logical), sect, old(dirty), shown)
    {
      if dirty {
        var ok := WriteSector(fs, buf, sect);
        if !ok { return DISK_ERR; }
        dirty := false;
      }
      res := OK;
    }

    /** The middle of f_truncate: free the clusters behind the file pointer, set the size, and write a
        changed buffer back. */
    method Shorten() returns (res: FResult)
      requires Valid() && fptr < objsize
      modifies this`chain, this`sclust, this`dirty, this`objsize, this`modified
      modifies fs`wflag, fs`winsect, fs`logical, fs`fat, fs`freeClst, fs`infoDue, fs.win, fs.disk
      ensures fs.Valid() && (fs.disk.reliable ==> res == OK)
      ensures res == OK ==>
                Valid() && objsize == fptr && modified && Became(old(St()), St(), old(Contents())[..fptr]).Sound?
                && ClustersFor(fs.geo, fptr) <= old(|chain|) && chain == old(chain)[..ClustersFor(fs.geo, fptr)]
    {
      hide Fatfs.Valid, Fatfs.Consistent, Judge, FileBytes, Coherent, Mirrored, Decodes, Laid, CutFat, Owns, Became;
      hide MayCut, Holding, ClustersFor, Clip, Viewed;
      ghost var s := St();
      CutWithin(s);
      ghost var k := ClustersFor(fs.geo, fptr);
      res := CutChain(k);
      objsize := fptr;
      modified := true;
      if res == OK {
        ghost var l := fs.logical;
        CutPlace(s, k, Clip(fs.geo.fsType, EOC), fs.fat, l, fs.freeClst, fs.winsect);
        res := WriteBack();
        if res != OK { return; }
        chain := chain[..k];
        assert St() == Cut(s, k, fs.fat, l, fs.freeClst, fs.winsect);
        CutStep(s, k, Clip(fs.geo.fsType, EOC), fs.fat, l, fs.freeClst, fs.winsect);
        BecameGives(s, St(), FileBytes(s)[..fptr]);
        CutHolding(s, k, clust);
      }
    }

    /** f_truncate: the file ends at the file pointer. */
    method Truncate() returns (res: FResult)
      requires Usable()
      modifies this`chain, this`sclust, this`dirty, this`objsize, this`err, this`modified
      modifies fs`wflag, fs`winsect, fs`logical, fs`fat, fs`freeClst, fs`infoDue, fs.win, fs.disk
      ensures Usable()
      ensures old(err) != OK ==> res == err == old(err)
      ensures old(err) == OK && !mayWrite ==> res == DENIED && err == OK && St() == old(St())
      ensures old(err) == OK && mayWrite ==> res == err && (fs.disk.reliable ==> res == OK)
      ensures res == OK ==>
                fptr == objsize && modified == (old(modified) || fptr < old(objsize))
                && Became(old(St()), St(), old(Contents())[..fptr]).Sound?
                && (fptr < old(objsize) ==>
                      fs.geo.csize > 0 && ClustersFor(fs.geo, fptr) <= old(|chain|)
                      && chain == old(chain)[..ClustersFor(fs.geo, fptr)])
      ensures old(err) == OK && (!mayWrite || fptr == old(objsize)) ==>
                St() == old(St()) && modified == old(modified) && fs.wflag == old(fs.wflag)
                && fs.infoDue == old(fs.infoDue)
    {
      hide Judge, FileBytes, KeepsOthers, Coherent, Mirrored, Decodes, Laid, FatLaid, Holding;
      if err != OK { return err; }
      if !mayWrite { return DENIED; }
      Limits(St());
      BecameNothing(St());
      assert Contents()[..objsize] == Contents();
      res := OK;
      if fptr < objsize { res := Shorten(); }
      if res != OK { err := res; }
    }

    // -------------------------------------------------------------- f_sync

    /** The entry of the file can be written: it is where f_open found it. */
    ghost predicate Syncable()
      requires fs.Valid()
      reads this, fs, fs.win, fs.disk
    {
      Filed(St(), dirSect) && dirOff + 32 <= 512
    }

    /** Writing FSInfo, if that is due, does not touch the FAT. */
    ghost predicate InfoSafe()
      reads this, fs
    {
      WritesInfo(fs) ==> InfoApart(fs.geo)
    }

    /** Store the first cluster and the size in the directory entry, in the window. */
    method StoreEntry(tm: nat) returns (res: FResult)
      requires Core() && !dirty && Syncable()
      modifies fs`wflag, fs`winsect, fs`logical, fs.win, fs.disk
      ensures fs.Valid() && (fs.disk.reliable ==> res == OK)
      ensures res == OK ==>
                Core() && Contents() == old(Contents()) && fs.winsect == dirSect < |old(fs.logical)|
                && fs.logical ==
                    old(fs.logical)[dirSect :=
                    EntryStored(fs.geo.fsType, old(fs.logical)[dirSect], dirOff, sclust, objsize, tm)]
    {
      hide Judge, FileBytes, KeepsOthers, Forest, Coherent, Mirrored, Decodes, Laid;
      ghost var s := St();
      EntryApart(s, dirSect);
      Limits(s);
      res := fs.MoveWindow(dirSect);
      if res != OK { return; }
      ghost var w: Sector := fs.win[..];
      WriteEntry(tm);
      MarkOther(fs);
      ElsewhereStep(s, fs.logical, dirSect);
    }

    method WriteEntry(tm: nat)
      requires fs.win.Length == 512 && dirOff + 32 <= 512
      modifies fs.win
      ensures fs.win[..] == EntryStored(fs.geo.fsType, old(fs.win[..]), dirOff, sclust, objsize, tm)
    {
      hide StoreWord, StoreDword;
      fs.win[dirOff + 11] := fs.win[dirOff + 11] as nat / 64 * 64 + 32 + fs.win[dirOff + 11] as nat % 32;
      PutWord(fs.win, dirOff + 26, sclust);
      if fs.geo.fsType == FAT32 { PutWord(fs.win, dirOff + 20, sclust / 0x1_0000); }
      PutDword(fs.win, dirOff + 28, objsize);
      PutDword(fs.win, dirOff + 22, tm);
      PutWord(fs.win, dirOff + 18, 0);
    }

    /** f_sync of a changed file. */
    method SyncModified(tm: nat) returns (res: FResult)
      requires Valid() && Syncable()
      modifies this`dirty, this`modified, fs`wflag, fs`winsect, fs`infoDue, fs`logical, fs`fat, fs`mirrored, fs.win
      modifies fs.disk
      ensures fs.Consistent() && (fs.disk.reliable ==> res == OK) && (res == OK ==> !modified)
      ensures old(InfoSafe()) && fs.disk.reliable ==> Valid()
      ensures old(InfoSafe()) && res == OK ==>
                Judge(St()).Sound? && Contents() == old(Contents())
                && Recorded(fs.geo, fs.disk.sectors, dirSect, dirOff, Contents())
                && Synced(old(St()), St(), dirSect,
                    EntryStored(fs.geo.fsType, old(fs.logical[dirSect]), dirOff, sclust, objsize, tm))
      ensures fs.disk.reliable && FirstBelow(chain) == |chain| ==>
                Recorded(fs.geo, fs.disk.sectors, dirSect, dirOff, old(Contents()))
      ensures !old(InfoSafe()) && fs.disk.reliable && UnderInfo(chain) ==>
                forall c :: !Recorded(fs.geo, fs.disk.sectors, dirSect, dirOff, c)
      ensures res == OK ==> !fs.wflag && dirSect < |fs.disk.sectors|
      ensures res == OK ==>
                EntryWritten(fs.geo.fsType, old(fs.logical[dirSect]), fs.disk.sectors[dirSect], dirOff, sclust, objsize,
                  tm)
      ensures res == OK && fs.tracked ==> !fs.infoDue && fs.InfoTold()
    {
      hide Fatfs.Consistent;
      hide Judge, FileBytes, KeepsOthers, Forest, Mirrored, Laid, EntryStored, Became, Holding, Decodes, Recorded;
      hide EntryWritten, Fatfs.InfoTold, LoadCluster;
      hide Filed;
      ghost var s, c := St(), Contents();
      EntryApart(s, dirSect);
      FirstClusterFits(s);
      Limits(s);
      ghost var e := fs.logical[dirSect];
      res := Flush();
      if res != OK { return; }
      ghost var t := St();
      FiledStays(s, t, c, dirSect);
      BecameGives(s, t, c);
      res := StoreEntry(tm);
      if res != OK { return; }
      FiledAgain(t, fs.logical, fs.winsect, dirSect);
      EntryReadsBack(fs.geo.fsType, e, dirOff, sclust, objsize, tm);
      EntryBytes(fs.geo.fsType, e, dirOff, sclust, objsize, tm);
      res := SyncRest();
    }

    /** The end of f_sync: the window, which holds the entry, and FSInfo are written back. */
    method SyncRest() returns (res: FResult)
      requires Core() && !dirty && Syncable() && fs.winsect == dirSect && !fs.geo.InMirror(dirSect)
      requires LoadCluster(fs.geo.fsType, fs.logical[dirSect], dirOff) == sclust
      requires LoadSize(fs.logical[dirSect], dirOff) == objsize
      modifies this`modified, fs`wflag, fs`winsect, fs`infoDue, fs`logical, fs`fat, fs`mirrored, fs.win, fs.disk
      ensures fs.Consistent() && (fs.disk.reliable ==> res == OK) && !modified
      ensures old(InfoSafe()) ==>
                (fs.disk.reliable ==> Core()) && Judge(St()).Sound? && Contents() == old(Contents())
                && |fs.logical| == old(|fs.logical|)
                && fs.fat == old(fs.fat)
                && (forall i :: 0 <= i < |fs.logical| && i != fs.geo.volbase + 1 ==>
                    fs.logical[i] == old(fs.logical[i]))
                && (res == OK ==> Recorded(fs.geo, fs.disk.sectors, dirSect, dirOff, Contents()))
      ensures fs.disk.reliable && FirstBelow(chain) == |chain| ==>
                Recorded(fs.geo, fs.disk.sectors, dirSect, dirOff, old(Contents()))
      ensures !old(InfoSafe()) && fs.disk.reliable && UnderInfo(chain) ==>
                forall c :: !Recorded(fs.geo, fs.disk.sectors, dirSect, dirOff, c)
      ensures res == OK ==> !fs.wflag && dirSect < |fs.disk.sectors|
      ensures res == OK ==> fs.disk.sectors[dirSect] == old(fs.logical[dirSect])
      ensures fs.tracked ==> !fs.infoDue && fs.InfoTold()
    {
      hide Fatfs.Valid, Fatfs.Consistent;
      hide Judge, FileBytes, KeepsOthers, Forest, Mirrored, Laid, Filed, Recorded, Decodes, InfoLeaves, UnderInfo;
      ghost var t, safe := St(), InfoSafe();
      EntryApart(t, dirSect);
      Limits(t);
      FirstCluster(t);
      VolumePlace(t);
      res := SyncFs(fs);
      NothingPending(fs);
      if safe { InfoStep(t, fs.logical, fs.winsect); }
      modified := false;
      if safe && res == OK { NowRecorded(St(), fs.disk.sectors, dirSect, dirOff); }
      if !safe && fs.disk.reliable {
        InfoOver(t, fs.fat, fs.logical, fs.disk.sectors, dirSect, dirOff);
      }
    }

    /** f_sync: afterwards the medium alone, with no window and no buffer, holds the file. Where FSInfo is
        written over the FAT, it holds no file that starts where FSInfo has zeros. */
    method Sync(tm: nat) returns (res: FResult)
      requires Valid() && Syncable()
      modifies this`dirty, this`modified, fs`wflag, fs`winsect, fs`infoDue, fs`logical, fs`fat, fs`mirrored, fs.win
      modifies fs.disk
      ensures fs.Consistent() && (fs.disk.reliable ==> res == OK) && (res == OK ==> !modified)
      ensures !old(modified) ==> res == OK && St() == old(St())
      ensures old(InfoSafe()) && fs.disk.reliable ==> Valid()
      ensures old(InfoSafe()) && res == OK ==> Judge(St()).Sound? && Contents() == old(Contents())
      ensures old(InfoSafe()) && res == OK && old(modified) ==>
                Recorded(fs.geo, fs.disk.sectors, dirSect, dirOff, Contents())
                && Synced(old(St()), St(), dirSect,
                    EntryStored(fs.geo.fsType, old(fs.logical[dirSect]), dirOff, sclust, objsize, tm))
      ensures fs.disk.reliable && old(modified) && (FirstBelow(chain) == |chain| || UnderInfo(chain)) ==>
                (Recorded(fs.geo, fs.disk.sectors, dirSect, dirOff, old(Contents()))
                 <==> old(InfoSafe()) || FirstBelow(chain) == |chain|)
      ensures !old(modified) ==>
                !modified && fs.wflag == old(fs.wflag) && fs.disk.sectors == old(fs.disk.sectors)
                && fs.infoDue == old(fs.infoDue)
      ensures res == OK && old(modified) ==>
                !fs.wflag && dirSect < |fs.disk.sectors|
                && EntryWritten(fs.geo.fsType, old(fs.logical[dirSect]), fs.disk.sectors[dirSect], dirOff, sclust,
                     objsize, tm)
      ensures res == OK && old(modified) && fs.tracked ==> !fs.infoDue && fs.InfoTold()
    {
      res := OK;
      if modified { res := SyncModified(tm); }
    }
  }

  /** Where cluster k + 1 of a file starts. */
  lemma NextStart(g: Geometry, k: nat)
    ensures ClusterSectors(g.csize, k + 1) == ClusterSectors(g.csize, k) + g.csize
  {
  }

  /** A chain that covers the file covers the empty one, and lies before any position behind it. */
  lemma SoundCovers(s: State)
    requires Judge(s).Sound?
    ensures AreClusters(s.g, s.chain) && Covers(s.g, s.chain, 0) && s.size <= 512 * ClusterSectors(s.g.csize, |s.chain|)
    ensures s.chain == [] ==> SectorCount(s.g, s.chain) == s.size == 0
  {
  }

  lemma NoSectors(csize: nat)
    ensures ClusterSectors(csize, 0) == 0
  {
  }

  /** The current cluster starts before a position that is not in an earlier one. */
  lemma ClusterStart(s: State, clst: nat, ofs: nat)
    requires Judge(s).Sound? && s.fptr > 0 && ofs > 0 && Holding(s.g, s.chain, s.fptr - 1, clst)
    requires Quot((ofs - 1) / 512, s.g.csize) >= Quot((s.fptr - 1) / 512, s.g.csize)
    ensures var q, k := (s.fptr - 1) / 512, Quot((s.fptr - 1) / 512, s.g.csize);
            k < |s.chain| && clst == s.chain[k] && clst >= 2
            && Rem(q, s.g.csize) <= q && 512 * (q - Rem(q, s.g.csize)) == 512 * ClusterSectors(s.g.csize, k) < ofs
  {
    var k := Quot((s.fptr - 1) / 512, s.g.csize);
    ByteCluster(s.fptr - 1, s.g.csize);
    QuotAtLeast((ofs - 1) / 512, s.g.csize, k);
    ChainLink(s, k);
  }

  lemma InStretchIs(g: Geometry, k: nat, pos: nat, ofs: nat)
    requires 0 < ofs <= 512 * g.csize && pos == 512 * ClusterSectors(g.csize, k) + ofs
    ensures InStretch(g, k, pos)
  {
  }

  lemma AllSectors(g: Geometry, chain: seq<nat>)
    ensures SectorCount(g, chain) == ClusterSectors(g.csize, |chain|)
  {
  }

  lemma PastClusters(csize: nat, n: nat, k: nat, pos: nat)
    ensures k >= n && pos > 512 * ClusterSectors(csize, k) ==> pos > 512 * ClusterSectors(csize, n)
  {
    if k > n { ClusterSectorsMonotone(csize, n, k); }
  }

  /** The first cluster of a chain with its entry in the first sector of a FAT32 is one whose entry FSInfo
      has zeros for. */
  predicate UnderInfo(chain: seq<nat>) { FirstBelow(chain) < |chain| && InfoZeroed(chain[FirstBelow(chain)]) }

  /** When FSInfo was written over that sector, a chain with no such cluster is as it was, ... */
  lemma FarChain(s: State, f': seq<nat>)
    requires Judge(s).Sound? && |f'| == |s.f| && forall c :: 0 <= c < |f'| ==> InfoLeaves(s.f, f', c)
    requires FirstBelow(s.chain) == |s.chain|
    ensures forall c :: c in s.chain && c < |s.f| ==> f'[c] == s.f[c]
  {
    forall c | c in s.chain && c < |s.f| ensures f'[c] == s.f[c] { assert InfoLeaves(s.f, f', c); }
  }

  lemma FarSectors(s: State, l': seq<Sector>, d: seq<Sector>, ds: nat)
    requires Judge(s).Sound? && |l'| == |d| == |s.l| && ds < |d|
    requires !s.g.InFat(ds) && !s.g.InMirror(ds) && ds > s.g.volbase + 1
    requires forall i :: 0 <= i < |d| && !InfoPlace(s.g, i) ==> l'[i] == s.l[i]
    requires forall i :: 0 <= i < |d| && !s.g.InMirror(i) ==> d[i] == l'[i]
    ensures forall i :: 0 <= i < |d| && (i == ds || Owns(s.g, s.chain, i)) ==> d[i] == s.l[i]
  {
    AllOnDisk(s.g, s.end, s.chain);
    forall i | 0 <= i < |d| && Owns(s.g, s.chain, i) ensures i != s.g.volbase + 1 && !s.g.InMirror(i) {
      OwnedInData(s.g, s.end, s.chain, i);
    }
  }

  /** ... and any other leads to a free cluster. */
  lemma NearPath(s: State, f': seq<nat>)
    requires Judge(s).Sound? && |f'| == |s.f| && forall c :: 0 <= c < |f'| ==> InfoLeaves(s.f, f', c)
    requires UnderInfo(s.chain)
    ensures var path := s.chain[..FirstBelow(s.chain) + 1];
            s.sclust == path[0] >= 2 && LeadsNowhere(f', path)
  {
    var path := s.chain[..FirstBelow(s.chain) + 1];
    forall j | 0 <= j < |path|
      ensures path[j] < |f'| && (j < |path| - 1 ==> f'[path[j]] == path[j + 1])
    {
      ChainLink(s, j);
      assert InfoLeaves(s.f, f', path[j]);
    }
    assert InfoLeaves(s.f, f', path[|path| - 1]);
    assert path != [] && LeadsNowhere(f', path);
    HeadCluster(s);
    assert path[0] == s.chain[0];
  }

  /** So the medium tells the bytes of the first, and no bytes for the other. */
  lemma InfoOver(s: State, f': seq<nat>, l': seq<Sector>, d: seq<Sector>, ds: nat, off: nat)
    requires Judge(s).Sound? && !s.dirty && |f'| == |s.f| && forall c :: 0 <= c < |f'| ==> InfoLeaves(s.f, f', c)
    requires |l'| == |d| == |s.l| && HasFat(s.g, |d|) && |f'| == s.g.nFatent
    requires Decodes(s.g.fsType, Image(s.g, l'), f', |f'|)
    requires ds < |d| && off + 32 <= 512 && !s.g.InFat(ds) && !s.g.InMirror(ds) && ds > s.g.volbase + 1
    requires forall i :: 0 <= i < |d| && !InfoPlace(s.g, i) ==> l'[i] == s.l[i]
    requires forall i :: 0 <= i < |d| && !s.g.InMirror(i) ==> d[i] == l'[i]
    requires LoadCluster(s.g.fsType, s.l[ds], off) == s.sclust && LoadSize(s.l[ds], off) == s.size
    ensures FirstBelow(s.chain) == |s.chain| ==> Recorded(s.g, d, ds, off, FileBytes(s))
    ensures UnderInfo(s.chain) ==> forall c :: !Recorded(s.g, d, ds, off, c)
  {
    hide Judge, FileBytes, Recorded, Decodes, Image, InfoLeaves, LeadsNowhere, LoadCluster, LoadSize;
    SameImage(s.g, l', d);
    FarSectors(s, l', d, ds);
    if FirstBelow(s.chain) == |s.chain| {
      FarChain(s, f');
      StillRecorded(s, f', d, ds, off);
    } else if UnderInfo(s.chain) {
      NearPath(s, f');
      NoneRecorded(s.g, d, ds, off, f', s.chain[..FirstBelow(s.chain) + 1]);
    }
  }

  /** With nothing pending the medium is the logical disk but for the second FAT. */
  lemma NothingPending(fs: Fatfs)
    requires fs.Consistent()
    ensures fs.size == |fs.logical| == |fs.disk.sectors| && HasFat(fs.geo, fs.size) && |fs.fat| == fs.geo.nFatent
    ensures Decodes(fs.geo.fsType, Image(fs.geo, fs.logical), fs.fat, fs.geo.nFatent)
    ensures !fs.wflag ==>
              forall i :: 0 <= i < fs.size && !fs.geo.InMirror(i) ==> fs.disk.sectors[i] == fs.logical[i]
  {
  }

  /** The medium with nothing pending has the FAT of the logical disk. */
  lemma SameImage(g: Geometry, l: seq<Sector>, d: seq<Sector>)
    requires HasFat(g, |d|) && |l| == |d| && forall i :: 0 <= i < |d| && !g.InMirror(i) ==> d[i] == l[i]
    ensures Image(g, d) == Image(g, l)
  {
  }

  /** Bytes that a write of n bytes at p may reach: a file is at most 2^32 - 1 bytes long. */
  function Writable(p: nat, n: nat): nat {
    if p + n <= DWORD_MAX then n else if p <= DWORD_MAX then DWORD_MAX - p else 0
  }

  lemma WriteOn(c: seq<byte>, p: nat, d: seq<byte>, a: nat, b: nat)
    requires p <= |c| && a + b <= |d|
    ensures Splice(Splice(c, p, d[..a]), p + a, d[a..][..b]) == Splice(c, p, d[..a + b])
  {
    assert d[..a] + d[a..][..b] == d[..a + b];
    SpliceTwice(c, p, d[..a], d[a..][..b]);
  }

  lemma PutNothing(m: seq<byte>, p: nat, v: seq<byte>)
    requires p <= |m| && v == []
    ensures PutBytes(m, p, v) == m
  {
  }

  lemma ReadOn(m: seq<byte>, c: seq<byte>, p: nat, a: nat, b: nat, m1: seq<byte>, m2: seq<byte>)
    requires p + a + b <= |c| && a + b <= |m|
    requires m1 == PutBytes(m, 0, c[p..p + a]) && m2 == PutBytes(m1, a, c[p + a..p + a + b])
    ensures m2 == PutBytes(m, 0, c[p..p + a + b])
  {
  }
}
