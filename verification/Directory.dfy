/** Directory objects: a cursor over the entries of a static root directory or of a cluster chain. */
module Directory {
  import opened Bytes
  import opened Geometry
  import opened FatSpec
  import opened Window
  import opened Fat
  import opened FileSpec
  import opened Utf
  import opened Lfn
  import opened DirTable

  const MAX_DIR: nat := 0x20_0000     // bytes of a directory
  const MAX_ENTRIES: nat := 0x1_0000

  // ---------------------------------------------------------------- where the entries are

  /** The table is the static root directory of a FAT12 or FAT16 volume. */
  predicate IsStatic(g: Geometry, sclust: nat) { sclust == 0 && g.fsType != FAT32 }

  /** First cluster of the table; number 0 stands for the root directory. */
  function StartCluster(g: Geometry, sclust: nat): nat {
    if sclust == 0 && g.fsType == FAT32 then g.dirbase else sclust
  }

  /** The n-th cluster reached from c through FAT f, 0 when the links lead to no cluster before. */
  function NthCluster(f: seq<nat>, c: nat, n: nat): (r: nat)
    ensures r == 0 || 2 <= r < |f|
  {
    if n == 0 then (if 2 <= c < |f| then c else 0)
    else
      var p := NthCluster(f, c, n - 1);
      if p != 0 && 2 <= f[p] < |f| then f[p] else 0
  }

  /** The cluster of entry i, 0 in the static table. */
  ghost function ClusterAt(g: Geometry, f: seq<nat>, sclust: nat, i: nat): nat
    requires g.csize > 0
  {
    if IsStatic(g, sclust) then 0 else NthCluster(f, StartCluster(g, sclust), Quot(i / 16, g.csize))
  }

  /** The sector of entry i, 0 when there is no such entry. */
  ghost function SectorAt(g: Geometry, f: seq<nat>, sclust: nat, i: nat): nat
    requires g.csize > 0
  {
    if i >= MAX_ENTRIES then 0
    else if IsStatic(g, sclust) then (if i < g.nRootdir then g.dirbase + i / 16 else 0)
    else
      var c := ClusterAt(g, f, sclust, i);
      if c == 0 then 0 else g.ClusterBase(c) + Rem(i / 16, g.csize)
  }

  /** The entry of the cluster of entry i is no link and no end mark. */
  ghost predicate BadLink(g: Geometry, f: seq<nat>, sclust: nat, i: nat)
    requires g.csize > 0
  {
    var c := ClusterAt(g, f, sclust, i);
    2 <= c < |f| && f[c] < 2
  }

  /** The links of a table lead to its end. */
  ghost predicate LinksGood(g: Geometry, f: seq<nat>, sclust: nat)
    requires g.csize > 0
  {
    SectorAt(g, f, sclust, 0) != 0 && forall i: nat :: !BadLink(g, f, sclust, i)
  }

  /** Entries from i on, on any FAT: a table ends at its last entry or at the largest offset. */
  ghost function CountFrom(g: Geometry, f: seq<nat>, sclust: nat, i: nat): (n: nat)
    requires g.csize > 0 && i <= MAX_ENTRIES
    ensures i <= n <= MAX_ENTRIES && SectorAt(g, f, sclust, n) == 0
    ensures forall j :: i <= j < n ==> SectorAt(g, f, sclust, j) != 0
    decreases MAX_ENTRIES - i
  {
    if SectorAt(g, f, sclust, i) == 0 then i else CountFrom(g, f, sclust, i + 1)
  }

  ghost function Count(g: Geometry, f: seq<nat>, sclust: nat): nat
    requires g.csize > 0
  {
    CountFrom(g, f, sclust, 0)
  }

  lemma {:induction false} NthStops(f: seq<nat>, c: nat, m: nat, n: nat)
    requires m <= n && NthCluster(f, c, n) != 0
    ensures NthCluster(f, c, m) != 0
    decreases n
  {
    if m < n { NthStops(f, c, m, n - 1); }
  }

  /** Up to the count there are entries, from there on none. */
  lemma CountExact(g: Geometry, f: seq<nat>, sclust: nat, i: nat)
    requires g.csize > 0 && g.database > 0 && (g.fsType != FAT32 ==> g.dirbase > 0)
    ensures SectorAt(g, f, sclust, i) != 0 <==> i < Count(g, f, sclust)
  {
    var n := Count(g, f, sclust);
    if n <= i && SectorAt(g, f, sclust, i) != 0 {
      if !IsStatic(g, sclust) {
        QuotMonotone(n / 16, i / 16, g.csize);
        NthStops(f, StartCluster(g, sclust), Quot(n / 16, g.csize), Quot(i / 16, g.csize));
      }
    }
  }

  lemma QuotMonotone(m: nat, n: nat, k: nat)
    requires k > 0 && m <= n
    ensures Quot(m, k) <= Quot(n, k)
  {
    QuotRem(m, k);
    QuotAtLeast(n, k, Quot(m, k));
  }

  /** Entry sectors are on the medium and no FAT sectors. */
  lemma SectorPlace(g: Geometry, end: nat, f: seq<nat>, sclust: nat, i: nat)
    requires Laid(g, end) && |f| == g.nFatent
    ensures var s := SectorAt(g, f, sclust, i);
            s < end && !g.InFat(s) && !g.InMirror(s) && (s != 0 ==> s >= g.fatbase)
  {
    if SectorAt(g, f, sclust, i) != 0 && !IsStatic(g, sclust) {
      ClusterInData(g, end, ClusterAt(g, f, sclust, i), SectorAt(g, f, sclust, i));
    }
  }

  /** The entries of a directory on logical disk l. */
  ghost function Table(g: Geometry, end: nat, f: seq<nat>, l: seq<Sector>, sclust: nat): (t: seq<Entry>)
    requires Laid(g, end) && |f| == g.nFatent && |l| == end
    ensures |t| == Count(g, f, sclust)
  {
    seq(Count(g, f, sclust), i requires 0 <= i < Count(g, f, sclust) => OnDiskEntry(g, end, f, l, sclust, i))
  }

  ghost function OnDiskEntry(g: Geometry, end: nat, f: seq<nat>, l: seq<Sector>, sclust: nat, i: nat): (e: Entry)
    requires Laid(g, end) && |f| == g.nFatent && |l| == end
  {
    SectorPlace(g, end, f, sclust, i);
    EntryAt(l[SectorAt(g, f, sclust, i)], 32 * (i % 16))
  }

  // ---------------------------------------------------------------- the next entry

  /** Within a sector, the next entry is in the same sector; within a cluster, in the next sector of it. */
  lemma NextPlace(g: Geometry, f: seq<nat>, sclust: nat, i: nat)
    requires g.csize > 0 && SectorAt(g, f, sclust, i) != 0 && i + 1 < MAX_ENTRIES
    ensures (i + 1) % 16 != 0 && (IsStatic(g, sclust) ==> g.nRootdir % 16 == 0) ==>
              SectorAt(g, f, sclust, i + 1) == SectorAt(g, f, sclust, i)
              && ClusterAt(g, f, sclust, i + 1) == ClusterAt(g, f, sclust, i)
    ensures (i + 1) % 16 == 0 && IsStatic(g, sclust) && i + 1 < g.nRootdir ==>
              SectorAt(g, f, sclust, i + 1) == SectorAt(g, f, sclust, i) + 1
    ensures (i + 1) % 16 == 0 && !IsStatic(g, sclust) && Rem((i + 1) / 16, g.csize) != 0 ==>
              SectorAt(g, f, sclust, i + 1) == SectorAt(g, f, sclust, i) + 1
              && ClusterAt(g, f, sclust, i + 1) == ClusterAt(g, f, sclust, i)
    ensures (i + 1) % 16 == 0 && !IsStatic(g, sclust) && Rem((i + 1) / 16, g.csize) == 0 ==>
              var c := ClusterAt(g, f, sclust, i);
              ClusterAt(g, f, sclust, i + 1) == (if 2 <= f[c] < |f| then f[c] else 0)
  {
    if (i + 1) % 16 != 0 {
      assert (i + 1) / 16 == i / 16;
    } else {
      var q := (i + 1) / 16;
      assert i / 16 == q - 1;
      QuotBefore(q, g.csize);
      QuotRem(q, g.csize);
      QuotRem(q - 1, g.csize);
    }
  }

  /** Following the links for an offset: after k clusters, rest bytes are left. */
  ghost predicate Following(g: Geometry, f: seq<nat>, start: nat, ofs: nat, clst: nat, k: nat, rest: nat) {
    ofs == rest + 512 * ClusterSectors(g.csize, k)
    && (if k == 0 then clst == start else clst == NthCluster(f, start, k) != 0)
  }

  lemma Followed(g: Geometry, f: seq<nat>, start: nat, ofs: nat, clst: nat, k: nat, rest: nat)
    requires g.csize > 0 && Following(g, f, start, ofs, clst, k, rest) && ofs % 32 == 0
    ensures rest < 512 * g.csize ==> Quot(ofs / 32 / 16, g.csize) == k && Rem(ofs / 32 / 16, g.csize) == rest / 512
    ensures rest >= 512 * g.csize ==> k < Quot(ofs / 32 / 16, g.csize)
  {
    assert ofs / 32 / 16 == ofs / 512 == ClusterSectors(g.csize, k) + rest / 512;
    if rest < 512 * g.csize {
      QuotUnique(ofs / 512, g.csize, k, rest / 512);
    } else {
      QuotAtLeast(ofs / 512, g.csize, k + 1);
    }
  }

  lemma FollowOn(g: Geometry, f: seq<nat>, start: nat, ofs: nat, clst: nat, k: nat, rest: nat, nxt: nat)
    requires g.csize > 0 && Following(g, f, start, ofs, clst, k, rest) && ofs % 32 == 0 && rest >= 512 * g.csize
    requires nxt == if 2 <= clst < |f| then f[clst] else 1
    ensures 2 <= nxt < |f| ==> Following(g, f, start, ofs, nxt, k + 1, rest - 512 * g.csize)
    ensures !(2 <= nxt < |f|) ==> NthCluster(f, start, Quot(ofs / 32 / 16, g.csize)) == 0
  {
    Followed(g, f, start, ofs, clst, k, rest);
    if !(2 <= nxt < |f|) && NthCluster(f, start, Quot(ofs / 32 / 16, g.csize)) != 0 {
      NthStops(f, start, k + 1, Quot(ofs / 32 / 16, g.csize));
    }
  }

  /** The DIR object. */
  class Dir {
    const fs: Fatfs
    const sclust: nat
    var dptr: nat
    var clust: nat
    var sect: nat
    var blkOfs: nat               // offset of the block of the object found or read
    const fn: array<byte>         // short name and flags looked for
    const lfnbuf: array<unit>     // the volume's long-name working buffer

    constructor (v: Fatfs, c: nat, buf: array<unit>)
      requires buf.Length == 256
      ensures fs == v && sclust == c && lfnbuf == buf && fresh(fn) && fn.Length == 12
    {
      fs, sclust, lfnbuf := v, c, buf;
      dptr, clust, sect, blkOfs := 0, 0, 0, NO_BLOCK;
      fn := new byte[12](i => 0);
    }

    ghost predicate Valid()
      reads this, fs, fs.win, fs.disk
    {
      fs.Valid() && Laid(fs.geo, fs.size) && fn.Length == 12 && fn != fs.win && lfnbuf.Length == 256
    }

    /** The entries of the directory. */
    ghost function Tab(): seq<Entry>
      requires Valid()
      reads this, fs, fs.win, fs.disk
    {
      Table(fs.geo, fs.size, fs.fat, fs.logical, sclust)
    }

    /** What is looked for. */
    ghost function Wanted(): Key
      requires fn.Length == 12 && lfnbuf.Length == 256
      reads fn, lfnbuf
    {
      Key(lfnbuf[..], fn[..11], fn[11] as nat % 2 == 1, fn[11] as nat / 64 % 2 == 1)
    }

    /** The cursor is at entry i. */
    ghost predicate At(i: nat)
      requires fs.geo.csize > 0
      reads this, fs
    {
      dptr == 32 * i && sect == SectorAt(fs.geo, fs.fat, sclust, i) && sect != 0
      && clust == ClusterAt(fs.geo, fs.fat, sclust, i)
    }

    /** dir_sdi: move the cursor to the entry at an offset, on any FAT. */
    method Sdi(ofs0: nat) returns (res: FResult)
      requires Valid()
      modifies this`dptr, this`clust, this`sect, fs`wflag, fs`winsect, fs.win, fs.disk
      ensures Valid()
      ensures res == OK ==> ofs0 % 32 == 0 && At(ofs0 / 32)
      ensures res == INT_ERR ==> ofs0 % 32 != 0 || SectorAt(fs.geo, fs.fat, sclust, ofs0 / 32) == 0
      ensures (res == OK || res == INT_ERR || res == DISK_ERR) && (fs.disk.reliable ==> res != DISK_ERR)
    {
      hide Coherent, Mirrored, Decodes, NthCluster;
      if ofs0 >= MAX_DIR || ofs0 % 32 != 0 { return INT_ERR; }
      var ofs := ofs0;
      dptr := ofs;
      var clst := sclust;
      if clst == 0 && fs.geo.fsType == FAT32 { clst := fs.geo.dirbase; }
      var s := 0;
      if clst == 0 {
        NoCluster(fs.fat, Quot(ofs0 / 32 / 16, fs.geo.csize));
        if ofs / 32 >= fs.geo.nRootdir { return INT_ERR; }
        s := fs.geo.dirbase;
      } else {
        res, clst, ofs := Follow(clst, ofs);
        if res != OK { return; }
        s := Clst2Sect(fs.geo, clst);
      }
      clust := clst;
      if s == 0 { return INT_ERR; }
      sect := s + ofs / 512;
      res := OK;
    }

    /** The cluster-following loop of dir_sdi. */
    method Follow(start: nat, ofs0: nat) returns (res: FResult, clst: nat, ofs: nat)
      requires Valid() && ofs0 % 32 == 0
      modifies fs`wflag, fs`winsect, fs.win, fs.disk
      ensures Valid() && (fs.disk.reliable ==> res != DISK_ERR) && (res == OK || res == INT_ERR || res == DISK_ERR)
      ensures res == OK ==>
                ofs / 512 == Rem(ofs0 / 32 / 16, fs.geo.csize) && ofs < 512 * fs.geo.csize
                && (if 2 <= clst < fs.geo.nFatent then clst else 0) ==
                    NthCluster(fs.fat, start, Quot(ofs0 / 32 / 16, fs.geo.csize))
      ensures res != OK && res != DISK_ERR ==> NthCluster(fs.fat, start, Quot(ofs0 / 32 / 16, fs.geo.csize)) == 0
    {
      hide Coherent, Mirrored, Decodes;
      res, clst, ofs := OK, start, ofs0;
      ghost var k := 0;
      var csz := fs.geo.csize * 512;
      while ofs >= csz
        invariant Valid() && res == OK && Following(fs.geo, fs.fat, start, ofs0, clst, k, ofs)
        decreases ofs
      {
        var nxt := GetFat(fs, clst);
        if nxt == FAT_DISK_ERR { res := DISK_ERR; return; }
        FollowOn(fs.geo, fs.fat, start, ofs0, clst, k, ofs, nxt);
        clst := nxt;
        if clst < 2 || clst >= fs.geo.nFatent { res := INT_ERR; return; }
        ofs, k := ofs - csz, k + 1;
      }
      Followed(fs.geo, fs.fat, start, ofs0, clst, k, ofs);
    }

    /** The part of dir_next up to the end of a chain: go to the entry after entry i, or tell that the
        cluster of entry i is the last one and entry i the last in it. */
    method Step(ghost i: nat) returns (res: FResult, end: bool)
      requires Valid() && At(i)
      modifies this`dptr, this`clust, this`sect, fs`wflag, fs`winsect, fs.win, fs.disk
      ensures Valid() && (res == OK || res == NO_FILE || res == INT_ERR || res == DISK_ERR)
      ensures res == OK && !end ==> At(i + 1)
      ensures res == OK && end ==> AtEnd(i)
      ensures (res != OK && res != DISK_ERR) || end ==> SectorAt(fs.geo, fs.fat, sclust, i + 1) == 0
      ensures fs.disk.reliable ==> res != DISK_ERR
      ensures res == NO_FILE ==> sect == 0 && (IsStatic(fs.geo, sclust) || i + 1 >= MAX_ENTRIES)
      ensures res == INT_ERR ==> BadLink(fs.geo, fs.fat, sclust, i)
    {
      hide Coherent, Mirrored, Decodes, NthCluster, Laid, FatLaid, HasFat;
      TableStarts(fs.geo, fs.size);
      var ofs := dptr + 32;
      if ofs >= MAX_DIR { sect := 0; }
      if sect == 0 { return NO_FILE, false; }
      NextPlace(fs.geo, fs.fat, sclust, i);
      if ofs % 512 == 0 {
        sect := sect + 1;
        if clust == 0 {
          if ofs / 32 >= fs.geo.nRootdir {
            sect := 0;
            return NO_FILE, false;
          }
        } else if Rem(ofs / 512, fs.geo.csize) == 0 {
          var clst := GetFat(fs, clust);
          if clst <= 1 { return INT_ERR, false; }
          if clst == FAT_DISK_ERR { return DISK_ERR, false; }
          if clst >= fs.geo.nFatent { return OK, true; }
          clust := clst;
          sect := Clst2Sect(fs.geo, clst);
        }
      }
      dptr := ofs;
      return OK, false;
    }

    /** The cursor is at entry i, the last of the last cluster; dir_next has moved the sector on. */
    ghost predicate AtEnd(i: nat)
      requires fs.geo.csize > 0
      reads this, fs
    {
      && dptr == 32 * i && i + 1 < MAX_ENTRIES && (i + 1) % 16 == 0 && Rem((i + 1) / 16, fs.geo.csize) == 0
      && !IsStatic(fs.geo, sclust) && SectorAt(fs.geo, fs.fat, sclust, i) != 0
      && clust == ClusterAt(fs.geo, fs.fat, sclust, i) && 2 <= clust < |fs.fat| && fs.fat[clust] >= |fs.fat|
    }

    /** dir_next without stretching: to the next entry, on any FAT; there is none exactly where dir_sdi
        finds none. */
    method Next(ghost i: nat) returns (res: FResult)
      requires Valid() && At(i)
      modifies this`dptr, this`clust, this`sect, fs`wflag, fs`winsect, fs.win, fs.disk
      ensures Valid() && (res == OK || res == NO_FILE || res == INT_ERR || res == DISK_ERR)
      ensures res == OK ==> At(i + 1)
      ensures res == NO_FILE || res == INT_ERR ==> SectorAt(fs.geo, fs.fat, sclust, i + 1) == 0
      ensures res == INT_ERR ==> BadLink(fs.geo, fs.fat, sclust, i)
      ensures fs.disk.reliable ==> res != DISK_ERR
    {
      hide BadLink;
      var end;
      res, end := Step(i);
      if res == OK && end {
        sect := 0;
        res := NO_FILE;
      }
    }

    /** Random and sequential access agree: after dir_sdi(0) and k times dir_next the cursor is where
        dir_sdi(32 * k) puts it, and one fails exactly when the other does. */
    method Advance(k: nat) returns (res: FResult)
      requires Valid()
      modifies this`dptr, this`clust, this`sect, fs`wflag, fs`winsect, fs.win, fs.disk
      ensures Valid()
      ensures res == OK ==> At(k)
      ensures fs.disk.reliable ==> res != DISK_ERR && (res == OK <==> SectorAt(fs.geo, fs.fat, sclust, k) != 0)
    {
      hide Coherent, Mirrored, Decodes, NthCluster, SectorAt, ClusterAt;
      TableStarts(fs.geo, fs.size);
      CountExact(fs.geo, fs.fat, sclust, k);
      CountExact(fs.geo, fs.fat, sclust, 0);
      res := Sdi(0);
      if res != OK { return; }
      for j := 0 to k
        invariant Valid() && res == OK && At(j)
      {
        CountExact(fs.geo, fs.fat, sclust, j + 1);
        res := Next(j);
        if res != OK { return; }
      }
    }

    // -------------------------------------------------------------- dir_find

    /** Bring the entry of the cursor into the window. */
    method Show(ghost i: nat) returns (res: FResult, o: nat)
      requires Valid() && At(i)
      modifies fs`wflag, fs`winsect, fs.win, fs.disk
      ensures Valid() && (fs.disk.reliable ==> res == OK) && (res == OK || res == DISK_ERR)
      ensures o + 32 <= 512
      ensures res == OK ==>
                i < |Tab()| && EntryAt(fs.win[..], o) == Tab()[i] && fs.winsect == sect && o == 32 * (i % 16)
    {
      hide Coherent, Mirrored, Decodes, SectorAt, ClusterAt, Table, Laid, Count;
      SectorPlace(fs.geo, fs.size, fs.fat, sclust, i);
      TableStarts(fs.geo, fs.size);
      CountExact(fs.geo, fs.fat, sclust, i);
      TableAt(fs.geo, fs.size, fs.fat, fs.logical, sclust, i);
      OffsetOf(i);
      o := dptr % 512;
      res := fs.MoveWindow(sect);
    }

    /** What dir_find makes of the entry at offset o of the window. */
    method Look(up: unit -> unit, ord: nat, sum: nat, o: nat, ghost i: nat) returns (hit: bool, ord': nat, sum': nat)
      requires fs.win.Length == 512 && o + 32 <= 512 && dptr == 32 * i && fn.Length == 12 && lfnbuf.Length == 256
      requires fs.win[o] != 0
      modifies this`blkOfs
      ensures See(up, Scan(ord, sum, old(blkOfs)), EntryAt(fs.win[..], o), i, Wanted())
              == if hit then Hit else Pass(Scan(ord', sum', blkOfs))
      ensures hit ==> blkOfs == old(blkOfs)
    {
      hide CmpGood, SumOf, Rotated;
      ghost var e := EntryAt(fs.win[..], o);
      hit, ord', sum' := false, ord, sum;
      var c: nat := fs.win[o];
      var a := fs.win[o + 11] as nat % 64;
      if c == DELETED || (a / 8 % 2 == 1 && a != ATTR_LFN) {
        ord', blkOfs := NO_ORDER, NO_BLOCK;
      } else if a == ATTR_LFN {
        if fn[11] as nat / 64 % 2 == 0 {
          if c / 64 % 2 == 1 {
            sum' := fs.win[o + 13];
            c := c - 64;
            ord' := c;
            blkOfs := dptr;
          }
          var same := false;
          if c == ord' && sum' == fs.win[o + 13] as nat { same := CmpLfn(up, lfnbuf, fs.win, o); }
          ord' := if same then (if ord' == 0 then NO_ORDER else ord' - 1) else NO_ORDER;
        }
      } else {
        var s := SumSfn(fs.win, o);
        assert e[..11] == fs.win[o..o + 11];
        SumPrefix(e, 11, 11);
        if ord == 0 && sum == s as nat { return true, ord, sum; }
        if fn[11] as nat % 2 == 0 && fs.win[o..o + 11] == fn[..11] { return true, ord, sum; }
        ord', blkOfs := NO_ORDER, NO_BLOCK;
      }
    }

    /** One turn of dir_find. */
    method SeeName(up: unit -> unit, ord: nat, sum: nat, ghost t: seq<Entry>, ghost i: nat)
      returns (res: FResult, hit: bool, ord': nat, sum': nat)
      requires Valid() && At(i) && Tab() == t && i < |t|
      modifies this`blkOfs, fs`wflag, fs`winsect, fs.win, fs.disk
      ensures Valid() && Tab() == t && (fs.disk.reliable ==> res != DISK_ERR)
      ensures res == OK || res == NO_FILE || res == DISK_ERR
      ensures res == NO_FILE ==> FindFrom(up, t, i, Scan(ord, sum, old(blkOfs)), Wanted()) == Missing
      ensures res == OK && hit ==> FindFrom(up, t, i, Scan(ord, sum, old(blkOfs)), Wanted()) == Found(i, blkOfs)
      ensures res == OK && !hit ==>
                FindFrom(up, t, i, Scan(ord, sum, old(blkOfs)), Wanted()) ==
                FindFrom(up, t, i + 1, Scan(ord', sum', blkOfs), Wanted())
    {
      hide Coherent, Mirrored, Decodes, See, SectorAt, ClusterAt, NthCluster, FindFrom, Table, FatLaid, HasFat, Count;
      hide Laid;
      hit, ord', sum' := false, ord, sum;
      var o;
      res, o := Show(i);
      if res != OK { return; }
      var c := fs.win[o];
      FindStep(up, t, i, Scan(ord, sum, blkOfs), Wanted());
      if c == 0 { res := NO_FILE; return; }
      hit, ord', sum' := Look(up, ord, sum, o, i);
    }

    /** dir_find: on any FAT, what Find says of the directory's entries. */
    method FindName(up: unit -> unit) returns (res: FResult)
      requires Valid()
      modifies this`dptr, this`clust, this`sect, this`blkOfs, fs`wflag, fs`winsect, fs.win, fs.disk
      ensures Valid() && (fs.disk.reliable ==> res != DISK_ERR)
      ensures res == OK ==> exists i :: Find(up, Tab(), Wanted()) == Found(i, blkOfs) && At(i)
      ensures res == NO_FILE ==> Find(up, Tab(), Wanted()) == Missing
      ensures res == OK || res == NO_FILE || res == INT_ERR || res == DISK_ERR
      ensures res == INT_ERR ==> Find(up, Tab(), Wanted()) == Missing
      ensures res == INT_ERR ==> fs.geo.csize > 0 && !LinksGood(fs.geo, fs.fat, sclust)
    {
      hide BadLink, LinksGood, Coherent, Mirrored, Decodes, See, SectorAt, ClusterAt, NthCluster, FindFrom, Table;
      hide FatLaid, HasFat, Count;
      ghost var t, key, i := Tab(), Wanted(), 0;
      TableStarts(fs.geo, fs.size);
      CountExact(fs.geo, fs.fat, sclust, 0);
      FindStep(up, t, 0, RESET, key);
      res := Sdi(0);
      if res != OK { NoFirst(fs.geo, fs.fat, sclust); return; }
      var ord: nat, sum: nat := NO_ORDER, NO_ORDER;
      blkOfs := NO_BLOCK;
      while true
        invariant Valid() && At(i) && Tab() == t && Wanted() == key
        invariant FindFrom(up, t, i, Scan(ord, sum, blkOfs), key) == Find(up, t, key)
        invariant i < |t|
        decreases |t| - i
      {
        var hit;
        res, hit, ord, sum := SeeName(up, ord, sum, t, i);
        if res != OK || hit { return; }
        CountExact(fs.geo, fs.fat, sclust, i + 1);
        res := Next(i);
        if res == INT_ERR { LinkBreaks(fs.geo, fs.fat, sclust, i); }
        if res != OK { FindStep(up, t, i + 1, Scan(ord, sum, blkOfs), key); return; }
        i := i + 1;
      }
    }

    // -------------------------------------------------------------- dir_read

    /** While a long name is being picked, the buffer holds its parts from entry blkOfs / 32 on, and a zero
        unit behind those to come. */
    ghost predicate Picking(t: seq<Entry>, ord: nat, i: nat, b: Buffer)
      requires lfnbuf.Length == 256 && i <= |t|
      reads this, lfnbuf
    {
      ord != NO_ORDER ==>
        blkOfs % 32 == 0 && blkOfs / 32 <= i && lfnbuf[..] == PickedParts(b, t[blkOfs / 32..i])
        && ZeroFrom(lfnbuf[..], 13 * ord)
    }

    /** What dir_read makes of an entry that is part of a long name. */
    method TakePart(ord: nat, sum: nat, o: nat, ghost t: seq<Entry>, ghost i: nat, ghost b: Buffer)
      returns (ord': nat, sum': nat, ghost b': Buffer)
      requires fs.win.Length == 512 && o + 32 <= 512 && dptr == 32 * i && lfnbuf.Length == 256
      requires i < |t| && t[i] == EntryAt(fs.win[..], o) && Picking(t, ord, i, b)
      modifies this`blkOfs, lfnbuf
      ensures ReadStep(Scan(ord, sum, old(blkOfs)), t[i], i) == Scan(ord', sum', blkOfs)
      ensures Picking(t, ord', i + 1, b')
    {
      hide PickGood, PickedBuffer, PickedParts, UnitOf, ZeroFrom;
      ord', sum', b' := ord, sum, b;
      var c: nat := fs.win[o];
      var start := c / 64 % 2 == 1;
      if start {
        sum' := fs.win[o + 13];
        c := c - 64;
        ord' := c;
        blkOfs := dptr;
        b' := lfnbuf[..];
        NonePicked(b', t, i);
      }
      var ok := false;
      if c == ord' && sum' == fs.win[o + 13] as nat {
        ghost var k := blkOfs / 32;
        ghost var l := lfnbuf[..];
        ok := PickLfn(lfnbuf, fs.win, o);
        PickedNext(b', t, k, i);
        assert PickOrder(t[i]) == c && (start <==> IsLast(t[i]));
        if ok { PickedZero(l, t[i]); }
      }
      ord' := if ok then (if ord' == 0 then NO_ORDER else ord' - 1) else NO_ORDER;
    }

    /** One turn of dir_read: the entry of the cursor is the object looked for, or ends the directory, or is
        passed over. */
    method SeeObject(ord: nat, sum: nat, ghost t: seq<Entry>, ghost i: nat, ghost b: Buffer)
      returns (res: FResult, hit: bool, ord': nat, sum': nat, ghost b': Buffer)
      requires Valid() && At(i) && Tab() == t && i < |t| && Picking(t, ord, i, b)
      modifies this`blkOfs, lfnbuf, fs`wflag, fs`winsect, fs.win, fs.disk
      ensures Valid() && Tab() == t && (fs.disk.reliable ==> res != DISK_ERR)
      ensures res == OK || res == NO_FILE || res == DISK_ERR
      ensures res == NO_FILE ==> ReadFrom(t, i, Scan(ord, sum, old(blkOfs))) == Missing
      ensures res == OK && hit ==>
                ReadFrom(t, i, Scan(ord, sum, old(blkOfs))) == Found(i, blkOfs)
                && (blkOfs != NO_BLOCK ==> Picking(t, 0, i, b'))
      ensures res == OK && !hit ==>
                ReadFrom(t, i, Scan(ord, sum, old(blkOfs))) == ReadFrom(t, i + 1, Scan(ord', sum', blkOfs))
                && Picking(t, ord', i + 1, b')
    {
      hide Coherent, Mirrored, Decodes, SeeRead, SectorAt, ClusterAt, NthCluster, ReadFrom, Table, FatLaid, HasFat;
      hide Count;
      hide PickedParts, Laid, ReadStep, SumOf, PickGood, ZeroFrom;
      hit, ord', sum', b' := false, ord, sum, b;
      var o;
      res, o := Show(i);
      if res != OK { return; }
      var c: nat := fs.win[o];
      ReadFromStep(t, i, Scan(ord, sum, blkOfs));
      if c == 0 { res := NO_FILE; return; }
      var a := fs.win[o + 11] as nat % 64;
      if c == DELETED || c == 46 || a % 32 == 8 {
        ord' := NO_ORDER;
      } else if a == ATTR_LFN {
        ord', sum', b' := TakePart(ord, sum, o, t, i, b);
      } else {
        var s := SumSfn(fs.win, o);
        EntryName(fs.win[..], o);
        assert fs.win[..][o..o + 11] == fs.win[o..o + 11];
        if ord != 0 || sum != s as nat { blkOfs := NO_BLOCK; }
        hit := true;
      }
    }

    /** dir_read: the next object from the cursor on, which is at entry i0 or past the end; its long name,
        if it has one, is picked into the buffer. */
    method ReadObject(ghost i0: nat) returns (res: FResult, ghost at: nat, ghost b: Buffer)
      requires Valid() && (sect == 0 || At(i0))
      modifies this`dptr, this`clust, this`sect, this`blkOfs, lfnbuf, fs`wflag, fs`winsect, fs.win, fs.disk
      ensures Valid() && (fs.disk.reliable ==> res != DISK_ERR)
      ensures res == OK || res == NO_FILE || res == INT_ERR || res == DISK_ERR
      ensures old(sect) == 0 ==> res == NO_FILE
      ensures res == OK ==>
                At(at) && at < |Tab()|
                && ReadFrom(Tab(), i0, Scan(NO_ORDER, NO_ORDER, old(blkOfs))) == Found(at, blkOfs)
                && (blkOfs != NO_BLOCK ==> Picking(Tab(), 0, at, b))
      ensures res == NO_FILE || res == INT_ERR ==>
                sect == 0 && (old(sect) != 0 ==> ReadFrom(Tab(), i0, Scan(NO_ORDER, NO_ORDER, old(blkOfs))) == Missing)
      ensures res == INT_ERR ==> fs.geo.csize > 0 && !LinksGood(fs.geo, fs.fat, sclust)
    {
      hide BadLink, Coherent, Mirrored, Decodes, SectorAt, ClusterAt, NthCluster, ReadFrom, Table, FatLaid, HasFat;
      hide Count;
      hide PickedParts, Laid, LinksGood, ZeroFrom;
      ghost var t, i, st0 := Tab(), i0, Scan(NO_ORDER, NO_ORDER, blkOfs);
      res, at, b := NO_FILE, i0, lfnbuf[..];
      var ord: nat, sum: nat := NO_ORDER, NO_ORDER;
      if sect != 0 {
        TableStarts(fs.geo, fs.size);
        CountExact(fs.geo, fs.fat, sclust, i0);
      }
      while sect != 0
        invariant Valid() && Tab() == t && (old(sect) == 0 ==> sect == 0)
        invariant sect == 0 ==> res == NO_FILE && old(sect) == 0
        invariant sect != 0 ==>
                    At(i) && i < |t| && ReadFrom(t, i, Scan(ord, sum, blkOfs)) == ReadFrom(t, i0, st0)
                    && Picking(t, ord, i, b)
        decreases if sect == 0 then 0 else |t| - i
      {
        var hit;
        res, hit, ord, sum, b := SeeObject(ord, sum, t, i, b);
        if res != OK { break; }
        if hit {
          at := i;
          break;
        }
        CountExact(fs.geo, fs.fat, sclust, i + 1);
        res := Next(i);
        if res == INT_ERR { LinkBreaks(fs.geo, fs.fat, sclust, i); }
        if res != OK { ReadFromStep(t, i + 1, Scan(ord, sum, blkOfs)); break; }
        i := i + 1;
      }
      if res != OK { sect := 0; }
    }
  }

  lemma NoFirst(g: Geometry, f: seq<nat>, sclust: nat)
    requires g.csize > 0
    ensures SectorAt(g, f, sclust, 0) == 0 ==> !LinksGood(g, f, sclust)
  {
  }

  lemma LinkBreaks(g: Geometry, f: seq<nat>, sclust: nat, i: nat)
    requires g.csize > 0 && BadLink(g, f, sclust, i)
    ensures !LinksGood(g, f, sclust)
  {
  }

  lemma ReadFromStep(t: seq<Entry>, i: nat, st: Scan)
    ensures i >= |t| ==> ReadFrom(t, i, st) == Missing
    ensures i < |t| && t[i][0] == 0 ==> ReadFrom(t, i, st) == Missing
    ensures i < |t| && t[i][0] != 0 ==>
              var e := t[i];
              if e[0] as nat == DELETED || e[0] == 46 || Attr(e) % 32 == 8
              then ReadFrom(t, i, st) == ReadFrom(t, i + 1, st.(ord := NO_ORDER))
              else if Attr(e) == ATTR_LFN then ReadFrom(t, i, st) == ReadFrom(t, i + 1, ReadStep(st, e, i))
              else ReadFrom(t, i, st) == Found(i, LongNameOf(st, e))
  {
  }

  lemma EntryName(w: seq<byte>, o: nat)
    requires o + 32 <= |w|
    ensures EntryAt(w, o)[..11] == w[o..o + 11] && SumOf(w[o..o + 11], 11) == SumOf(EntryAt(w, o), 11)
  {
    assert EntryAt(w, o)[..11] == w[o..o + 11];
    SumPrefix(EntryAt(w, o), 11, 11);
  }

  lemma NonePicked(b: Buffer, t: seq<Entry>, i: nat)
    requires i <= |t|
    ensures PickedParts(b, t[i..i]) == b
  {
  }

  lemma PickedNext(b: Buffer, t: seq<Entry>, k: nat, i: nat)
    ensures k <= i < |t| && PickGood(t[i]) ==>
              PickedParts(b, t[k..i + 1]) == PickedBuffer(PickedParts(b, t[k..i]), t[i])
  {
    if k <= i < |t| {
      PickedOneMore(b, t[k..i], t[i]);
      assert t[k..i + 1] == t[k..i] + [t[i]];
    }
  }

  lemma FindStep(up: unit -> unit, t: seq<Entry>, i: nat, st: Scan, key: Key)
    ensures i >= |t| ==> FindFrom(up, t, i, st, key) == Missing
    ensures i < |t| && t[i][0] == 0 ==> FindFrom(up, t, i, st, key) == Missing
    ensures i < |t| && See(up, st, t[i], i, key) == Hit ==> FindFrom(up, t, i, st, key) == Found(i, st.blk)
    ensures i < |t| && See(up, st, t[i], i, key).Pass? ==>
              FindFrom(up, t, i, st, key) == FindFrom(up, t, i + 1, See(up, st, t[i], i, key).st, key)
  {
  }

  lemma TableStarts(g: Geometry, end: nat)
    requires Laid(g, end)
    ensures g.csize > 0 && g.database > 0 && (g.fsType != FAT32 ==> g.dirbase > 0 && g.nRootdir % 16 == 0)
    ensures g.nFatent <= DWORD_MAX
  {
  }

  lemma OffsetOf(i: nat)
    ensures 32 * i % 512 == 32 * (i % 16)
  {
  }

  lemma TableAt(g: Geometry, end: nat, f: seq<nat>, l: seq<Sector>, sclust: nat, i: nat)
    requires Laid(g, end) && |f| == g.nFatent && |l| == end && i < Count(g, f, sclust)
    ensures SectorAt(g, f, sclust, i) < |l|
    ensures Table(g, end, f, l, sclust)[i] == EntryAt(l[SectorAt(g, f, sclust, i)], 32 * (i % 16))
  {
    SectorPlace(g, end, f, sclust, i);
  }

  lemma {:induction false} NoCluster(f: seq<nat>, n: nat)
    ensures NthCluster(f, 0, n) == 0
  {
    if n > 0 { NoCluster(f, n - 1); }
  }
}
