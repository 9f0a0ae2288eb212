/** The medium, the filesystem object and its one-sector write-back window. */
module Window {
  import opened Bytes
  import opened Geometry
  import opened FsInfoSector
  import opened FatSpec

  datatype FResult = OK | DISK_ERR | INT_ERR | NO_FILE | DENIED | INVALID_NAME

  /** The bytes of n sectors from s on. */
  function Run(d: seq<Sector>, s: nat, n: nat): (r: seq<byte>)
    requires s + n <= |d|
    ensures |r| == 512 * n
  {
    seq(512 * n, i requires 0 <= i < 512 * n => d[s + i / 512][i % 512])
  }

  /** Whole sectors of data put from s on. */
  function PutRun(d: seq<Sector>, s: nat, data: seq<byte>): (r: seq<Sector>)
    requires |data| % 512 == 0 && s + |data| / 512 <= |d|
    ensures |r| == |d|
    ensures forall i :: 0 <= i < |d| && !(s <= i < s + |data| / 512) ==> r[i] == d[i]
    ensures forall i :: s <= i < s + |data| / 512 ==> r[i] == data[512 * (i - s)..512 * (i - s) + 512]
  {
    seq(|d|, i requires 0 <= i < |d| =>
      if s <= i < s + |data| / 512 then data[512 * (i - s)..512 * (i - s) + 512] else d[i])
  }

  /** The storage below the filesystem: a fixed number of sectors. An unreliable one may fail a
      transfer; a failed write leaves the sectors it was given in any state. */
  class Disk {
    var sectors: seq<Sector>
    const reliable: bool

    constructor (content: seq<Sector>, reliable: bool)
      ensures sectors == content && this.reliable == reliable
    {
      sectors := content;
      this.reliable := reliable;
    }

    /** disk_read of one sector. */
    method Read(s: nat, buf: array<byte>) returns (ok: bool)
      requires s < |sectors| && buf.Length == 512
      modifies buf
      ensures reliable ==> ok
      ensures ok ==> buf[..] == sectors[s]
    {
      ok := *;
      ok := ok || reliable;
      if ok {
        var src := sectors[s];
        forall i | 0 <= i < 512 { buf[i] := src[i]; }
        assert buf[..] == src;
      }
    }

    /** disk_read of n sectors from s on, to offset off of a buffer. */
    method ReadRun(s: nat, n: nat, buf: array<byte>, off: nat) returns (ok: bool)
      requires s + n <= |sectors| && off + 512 * n <= buf.Length
      modifies buf
      ensures reliable ==> ok
      ensures ok ==> buf[..] == PutBytes(old(buf[..]), off, Run(sectors, s, n))
      ensures forall i :: 0 <= i < buf.Length && (i < off || off + 512 * n <= i) ==> buf[i] == old(buf[i])
    {
      ok := *;
      ok := ok || reliable;
      if ok { Overwrite(buf, off, Run(sectors, s, n)); }
    }

    /** disk_write of whole sectors from s on. */
    method WriteRun(data: seq<byte>, s: nat) returns (ok: bool)
      requires |data| % 512 == 0 && s + |data| / 512 <= |sectors|
      modifies this`sectors
      ensures reliable ==> ok
      ensures ok ==> sectors == PutRun(old(sectors), s, data)
      ensures |sectors| == old(|sectors|)
      ensures forall i :: 0 <= i < |sectors| && !(s <= i < s + |data| / 512) ==> sectors[i] == old(sectors[i])
    {
      ok := *;
      ok := ok || reliable;
      var image: seq<byte> := data;
      if !ok { image :| |image| == |data|; }
      sectors := PutRun(sectors, s, image);
    }

    /** disk_write of one sector. */
    method Write(buf: array<byte>, s: nat) returns (ok: bool)
      requires s < |sectors| && buf.Length == 512
      modifies this`sectors
      ensures reliable ==> ok
      ensures ok ==> sectors == old(sectors)[s := buf[..]]
      ensures |sectors| == old(|sectors|)
      ensures forall i :: 0 <= i < |sectors| && i != s ==> sectors[i] == old(sectors[i])
    {
      ok := *;
      ok := ok || reliable;
      var image: Sector := *;
      if ok { image := buf[..]; }
      sectors := sectors[s := image];
    }
  }

  const NO_SECTOR: nat := 0xFFFF_FFFF

  /** What is not pending in the window, which is sector p, is on the medium; the second FAT shows the first. */
  ghost predicate Coherent(g: Geometry, l: seq<Sector>, d: seq<Sector>, p: nat)
    requires |l| == |d| && HasFat(g, |d|)
  {
    && (forall i :: 0 <= i < |l| && !g.InMirror(i) && i != p ==> l[i] == d[i])
    && (forall i {:trigger g.InMirror(i)} :: g.InMirror(i) ==> l[i] == l[i - g.fsize])
  }

  /** Apart from the copy of the pending sector p, the second FAT on the medium equals the first. */
  ghost predicate Mirrored(g: Geometry, l: seq<Sector>, d: seq<Sector>, p: nat)
    requires |l| == |d| && HasFat(g, |d|)
  {
    forall i {:trigger g.InMirror(i)} :: g.InMirror(i) && i - g.fsize != p ==> d[i] == l[i]
  }

  /** A medium with its second FAT showing the first. */
  ghost function ReadThrough(g: Geometry, d: seq<Sector>): (l: seq<Sector>)
    requires HasFat(g, |d|)
    ensures |l| == |d|
    ensures forall p :: Coherent(g, l, d, p)
    ensures l == d ==> forall p :: Mirrored(g, l, d, p)
  {
    seq(|d|, i requires 0 <= i < |d| => if g.InMirror(i) then d[i - g.fsize] else d[i])
  }

  /** The FATFS object. `logical` is the medium with the window's pending write applied, and with the
      second FAT, which nothing reads, showing the first. */
  class Fatfs {
    const disk: Disk
    const geo: Geometry
    const win: array<byte>
    var winsect: nat
    var wflag: bool
    const infoOff: bool          // bit 7 of fsi_flag: there is no FSInfo to write
    var infoDue: bool            // bit 0: FSInfo is out of date
    var lastClst: dword
    var freeClst: dword

    ghost var logical: seq<Sector>
    ghost var fat: seq<nat>      // the values of the FAT entries on the logical disk
    ghost const size: nat        // sectors of the medium
    ghost var mirrored: bool     // the two FATs agreed when mounted, and no transfer fails
    ghost const tracked: bool    // FSInfo gave the two numbers when mounted, is written, and no transfer fails
    ghost const counted: bool    // the free count was known when mounted

    /** The sector the window holds a pending write for. */
    ghost function Pending(): nat
      reads this
    {
      if wflag then winsect else NO_SECTOR
    }

    /** The medium, the logical disk and the FAT agree, whatever bytes the window holds. */
    ghost predicate Consistent()
      reads this, disk
    {
      && win.Length == 512
      && |disk.sectors| == |logical| == size <= DWORD_MAX
      && FatLaid(geo, size)
      && |fat| == geo.nFatent && Decodes(geo.fsType, Image(geo, logical), fat, geo.nFatent)
      && (if winsect == NO_SECTOR then !wflag else winsect < size && !geo.InMirror(winsect))
      && Coherent(geo, logical, disk.sectors, Pending())
      && (mirrored ==> disk.reliable && Mirrored(geo, logical, disk.sectors, Pending()))
      && (wflag ==> winsect >= geo.fatbase)
      && (tracked ==> Tracked()) && (counted ==> freeClst <= geo.nFatent - 2)
    }

    /** FSInfo on the medium has the free count and the last cluster allocated. */
    ghost predicate InfoTold()
      reads this, disk
    {
      geo.volbase + 1 < |disk.sectors| && InfoNumbers(disk.sectors[geo.volbase + 1]) == (freeClst, lastClst)
    }

    /** It has them unless it is out of date. */
    ghost predicate Tracked()
      reads this, disk
    {
      disk.reliable && geo.fsType == FAT32 && !infoOff && InfoApart(geo) && (!infoDue ==> InfoTold())
    }

    ghost predicate Valid()
      reads this, win, disk
    {
      Consistent() && (winsect != NO_SECTOR ==> win[..] == logical[winsect])
    }

    /** No more is to be written back than before. */
    twostate predicate Calmer()
      reads this
    {
      (wflag ==> old(wflag)) && (infoDue ==> old(infoDue))
    }

    /** A mounted volume: the window shows the boot sector, nothing is pending. */
    constructor (d: Disk, g: Geometry, last: dword, free: dword, off: bool)
      requires |d.sectors| <= DWORD_MAX && Laid(g, |d.sectors|)
      ensures Valid() && fresh(win) && disk == d && geo == g
      ensures logical == ReadThrough(g, d.sectors) && fat == FatMap(g, logical)
      ensures mirrored == (d.reliable && logical == d.sectors)
      ensures lastClst == last && freeClst == free && infoOff == off && !infoDue
      ensures tracked <==> d.reliable && g.fsType == FAT32 && !off && InfoApart(g)
                           && InfoNumbers(d.sectors[g.volbase + 1]) == (free, last)
      ensures counted <==> free <= g.nFatent - 2
    {
      hide Coherent, Mirrored, Decodes;
      var boot := d.sectors[g.volbase];
      disk, geo := d, g;
      win := new byte[512](i requires 0 <= i < 512 => boot[i]);
      winsect, wflag := g.volbase, false;
      lastClst, freeClst, infoOff, infoDue := last, free, off, false;
      size := |d.sectors|;
      ghost var l := ReadThrough(g, d.sectors);
      ghost var f := FatMap(g, l);
      logical, fat := l, f;
      mirrored := d.reliable && l == d.sectors;
      tracked := d.reliable && g.fsType == FAT32 && !off && InfoApart(g)
                 && InfoNumbers(d.sectors[g.volbase + 1]) == (free, last);
      counted := free <= g.nFatent - 2;
      new;
      assert win[..] == boot;
    }

    /** sync_window: write a pending window back, and its copy in the second FAT. */
    method SyncWindow() returns (res: FResult)
      requires Valid()
      modifies this`wflag, disk
      ensures Valid()
      ensures res == OK || res == DISK_ERR
      ensures res == OK ==> !wflag
      ensures disk.reliable ==> res == OK
      ensures mirrored ==> disk.sectors == logical
      ensures !old(wflag) ==> !wflag && disk.sectors == old(disk.sectors)
    {
      res := OK;
      if wflag {
        var ok := disk.Write(win, winsect);
        if ok {
          wflag := false;
          assert Sub32(winsect, geo.fatbase) < geo.fsize <==> geo.InFat(winsect);
          if Sub32(winsect, geo.fatbase) < geo.fsize {
            if geo.nFats == 2 { var _ := disk.Write(win, winsect + geo.fsize); }
          }
        } else {
          res := DISK_ERR;
        }
      }
      if mirrored {
        forall i | 0 <= i < size ensures disk.sectors[i] == logical[i] { if geo.InMirror(i) { } }
        assert disk.sectors == logical;
      }
    }

    /** move_window: make sector `sect` appear in the window. */
    method MoveWindow(sect: nat) returns (res: FResult)
      requires Valid() && sect < size && !geo.InMirror(sect)
      modifies this`wflag, this`winsect, win, disk
      ensures Valid()
      ensures res == OK || res == DISK_ERR
      ensures res == OK ==> winsect == sect && win[..] == logical[sect]
      ensures res != OK ==> winsect == old(winsect) || winsect == NO_SECTOR
      ensures disk.reliable ==> res == OK
      ensures wflag ==> old(wflag)
    {
      res := OK;
      if sect != winsect {
        res := SyncWindow();
        if res == OK {
          var s := sect;
          var ok := disk.Read(sect, win);
          if !ok {
            s := NO_SECTOR;
            res := DISK_ERR;
          }
          winsect := s;
        }
      }
    }
  }
}
