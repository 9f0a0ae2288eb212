/** Transfers between the medium and the buffers of a file, which do not go through the window. */
module Transfer {
  import opened Bytes
  import opened Geometry
  import opened FatSpec
  import opened Window

  /** Sectors s .. s+n-1 are no FAT sectors and are not in the window. */
  ghost predicate Bypass(fs: Fatfs, s: nat, n: nat)
    reads fs
  {
    s + n <= fs.size && forall i :: s <= i < s + n ==> !fs.geo.InFat(i) && !fs.geo.InMirror(i) && i != fs.winsect
  }

  lemma ImageKept(g: Geometry, a: seq<Sector>, b: seq<Sector>)
    requires HasFat(g, |a|) && |a| == |b| && forall i :: 0 <= i < |a| && g.InFat(i) ==> a[i] == b[i]
    ensures Image(g, a) == Image(g, b)
  {
  }

  lemma Bypassed(g: Geometry, l: seq<Sector>, d: seq<Sector>, p: nat, s: nat, n: nat, l': seq<Sector>, d': seq<Sector>)
    requires |l| == |d| == |l'| == |d'| && HasFat(g, |d|) && (g.nFats == 1 || g.nFats == 2) && s + n <= |d|
    requires forall i :: s <= i < s + n ==> !g.InFat(i) && !g.InMirror(i) && l'[i] == d'[i]
    requires forall i :: 0 <= i < |d| && !(s <= i < s + n) ==> l'[i] == l[i] && d'[i] == d[i]
    requires Coherent(g, l, d, p)
    ensures Coherent(g, l', d', p) && (Mirrored(g, l, d, p) ==> Mirrored(g, l', d', p)) && Image(g, l') == Image(g, l)
  {
    ImageKept(g, l', l);
  }

  /** The logical disk after sectors s .. s+n-1 of the medium changed. */
  ghost function Refresh(l: seq<Sector>, d: seq<Sector>, s: nat, n: nat): (r: seq<Sector>)
    requires |l| == |d| && s + n <= |d|
    ensures |r| == |l|
    ensures forall i :: 0 <= i < |l| ==> r[i] == if s <= i < s + n then d[i] else l[i]
  {
    l[..s] + d[s..s + n] + l[s + n..]
  }

  lemma RefreshPut(l: seq<Sector>, d: seq<Sector>, s: nat, data: seq<byte>)
    requires |l| == |d| && |data| % 512 == 0 && s + |data| / 512 <= |d|
    ensures Refresh(l, PutRun(d, s, data), s, |data| / 512) == PutRun(l, s, data)
  {
  }

  /** disk_write of the data of whole sectors to sectors behind the reserved ones and outside the window. */
  method WriteRun(fs: Fatfs, data: seq<byte>, s: nat) returns (ok: bool)
    requires fs.Valid() && |data| % 512 == 0 && Bypass(fs, s, |data| / 512) && s >= fs.geo.fatbase
    modifies fs`logical, fs.disk
    ensures fs.Valid() && (fs.disk.reliable ==> ok)
    ensures ok ==> fs.logical == PutRun(old(fs.logical), s, data)
    ensures |fs.logical| == old(|fs.logical|)
    ensures forall i :: 0 <= i < fs.size && !(s <= i < s + |data| / 512) ==> fs.logical[i] == old(fs.logical[i])
  {
    ghost var n, d, l := |data| / 512, fs.disk.sectors, fs.logical;
    ok := fs.disk.WriteRun(data, s);
    fs.logical := Refresh(l, fs.disk.sectors, s, n);
    Bypassed(fs.geo, l, d, fs.Pending(), s, n, fs.logical, fs.disk.sectors);
    if ok { RefreshPut(l, d, s, data); }
  }

  /** disk_write of one buffer. */
  method WriteSector(fs: Fatfs, buf: array<byte>, s: nat) returns (ok: bool)
    requires fs.Valid() && buf.Length == 512 && Bypass(fs, s, 1) && s >= fs.geo.fatbase
    modifies fs`logical, fs.disk
    ensures fs.Valid() && (fs.disk.reliable ==> ok)
    ensures ok ==> fs.logical == old(fs.logical)[s := buf[..]]
    ensures |fs.logical| == old(|fs.logical|)
    ensures forall i :: 0 <= i < fs.size && i != s ==> fs.logical[i] == old(fs.logical[i])
  {
    ok := WriteRun(fs, buf[..], s);
    assert buf[..][512 * (s - s)..512 * (s - s) + 512] == buf[..];
  }

  /** disk_read of n sectors outside the window. */
  method ReadRun(fs: Fatfs, s: nat, n: nat, buf: array<byte>, off: nat) returns (ok: bool)
    requires fs.Valid() && Bypass(fs, s, n) && buf != fs.win && off + 512 * n <= buf.Length
    modifies buf
    ensures fs.Valid() && (fs.disk.reliable ==> ok)
    ensures ok ==> buf[..] == PutBytes(old(buf[..]), off, Run(fs.logical, s, n))
    ensures forall i :: 0 <= i < buf.Length && (i < off || off + 512 * n <= i) ==> buf[i] == old(buf[i])
  {
    ok := fs.disk.ReadRun(s, n, buf, off);
    assert Run(fs.disk.sectors, s, n) == Run(fs.logical, s, n);
  }

  method ReadSector(fs: Fatfs, s: nat, buf: array<byte>) returns (ok: bool)
    requires fs.Valid() && Bypass(fs, s, 1) && buf != fs.win && buf.Length == 512
    modifies buf
    ensures fs.Valid() && (fs.disk.reliable ==> ok)
    ensures ok ==> buf[..] == fs.logical[s]
  {
    ok := fs.disk.Read(s, buf);
  }
}
