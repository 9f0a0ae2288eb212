/** A name put into a directory comes out of it the same. */
module NameTrip {
  import opened Bytes
  import opened Window
  import opened Geometry
  import opened FatSpec
  import opened Utf
  import opened Text
  import opened Lfn
  import opened Names
  import opened FileInfo
  import opened DirTable
  import opened Directory
  import opened DirDisk
  import opened DirOps

  /** Characters without trailing spaces and dots. */
  function Snipped(cs: seq<scalar>): (r: seq<scalar>)
    ensures r <= cs
  {
    if cs != [] && IsTrailing(cs[|cs| - 1]) then Snipped(cs[..|cs| - 1]) else cs
  }

  /** Snipping characters is snipping units. */
  lemma {:induction false} SnippedUnits(cs: seq<scalar>)
    ensures Trimmed(Text16(cs)) == Text16(Snipped(cs))
    decreases |cs|
  {
    hide Utf16;
    if cs != [] {
      var k := |cs| - 1;
      var c: scalar := cs[k];
      LastChar(cs, k, c);
      if IsTrailing(c) { SnippedUnits(cs[..k]); }
    } else {
      assert Text16(cs) == [];
    }
  }

  lemma LastChar(cs: seq<scalar>, k: nat, c: scalar)
    requires |cs| == k + 1 && c == cs[k] && IsScalar(c)
    ensures Text16(cs) != [] && (IsTrailing(Text16(cs)[|Text16(cs)| - 1]) <==> IsTrailing(c))
    ensures IsTrailing(c) ==> Text16(cs)[..|Text16(cs)| - 1] == Text16(cs[..k])
  {
    CharUnits(c);
    assert cs == cs[..k] + [c];
    Text16Append(cs[..k], [c]);
    TextOne(c);
  }

  lemma FormBytes(n: seq<unit>, body: seq<unit>, ext: seq<unit>, fn: seq<byte>, nt: nat)
    requires |fn| == 12 && Is83(n, body, ext, fn, nt)
    ensures forall k :: 0 <= k < 11 ==> 32 <= fn[k] < 0x80
  {
    forall k | 0 <= k < 11 ensures 32 <= fn[k] < 0x80 {
      if k < 8 { assert fn[..8][k] == fn[k]; } else { assert fn[8..11][k - 8] == fn[k]; }
    }
  }

  lemma LowBits(k: nat, q: nat)
    requires q < 4
    ensures (4 * k + q) % 2 == q % 2 && (4 * k + q) / 2 == 2 * k + q / 2 && (2 * k + q / 2) % 2 == q / 2
  {
  }

  lemma Eighths(q: nat)
    requires q < 4
    ensures q * 8 / 8 == q && q * 8 / 16 == q / 2 && q / 2 % 2 == q / 2
  {
  }

  lemma CaseFlags(nt: nat)
    ensures var r := nt / 8 % 4 * 8; r / 8 % 2 == nt / 8 % 2 && r / 16 % 2 == nt / 16 % 2
  {
    var h := nt / 8;
    Eighths(h % 4);
    LowBits(h / 4, h % 4);
    assert h == 4 * (h / 4) + h % 4;
    assert nt / 16 == h / 2;
  }

  /** The entry tells the same case flags. */
  lemma FormInEntry(n: seq<unit>, body: seq<unit>, ext: seq<unit>, fn: seq<byte>, f: seq<byte>, nt: nat)
    requires |fn| == 12 && Is83(n, body, ext, fn, nt) && f == fn[..11]
    ensures Is83(n, body, ext, f, nt / 8 % 4 * 8)
  {
    hide HasUpper, HasLower, Holding;
    CaseFlags(nt);
    assert f[..8] == fn[..8] && f[8..11] == fn[8..11];
  }

  /** A short name in 8.3 form is ASCII and is read back. */
  lemma FormIsAscii(n: seq<unit>, body: seq<unit>, ext: seq<unit>, fn: seq<byte>)
    requires |fn| == 12 && Is83(n, body, ext, fn, fn[11] as nat)
    ensures (forall k :: 0 <= k < 11 ==> 32 <= fn[k] < 0x80) && forall k :: 0 <= k < |n| ==> n[k] < 0x80
    ensures Dotted(fn[..11]) != [] && Restored(fn[..11], fn[11] as nat / 8 % 4 * 8) == n
  {
    hide Cased, HasUpper, HasLower, Restored;
    var f := fn[..11];
    FormBytes(n, body, ext, fn, fn[11] as nat);
    FormInEntry(n, body, ext, fn, f, fn[11] as nat);
    Restores(n, body, ext, f, fn[11] as nat / 8 % 4 * 8);
    HeldField(f[..8], body);
  }

  /** What is registered for a created name. */
  ghost predicate IsCreated(n: Name, m: seq<unit>, fn: seq<byte>, body: seq<unit>, ext: seq<unit>) {
    n.units == m && |fn| == 12 && n.sfn == SfnEntry(fn) && Marks(fn)
    && (!n.long ==> Is83(m, body, ext, fn, fn[11] as nat))
  }

  // ---------------------------------------------------------------- the text a name stands for

  /** The place of the first character U+FFFF, or the length. */
  function FirstPadChar(cs: seq<scalar>): (j: nat)
    ensures j <= |cs| && (j < |cs| ==> cs[j] == 0xFFFF)
    ensures forall k :: 0 <= k < j ==> cs[k] != 0xFFFF
  {
    if cs == [] || cs[0] == 0xFFFF then 0 else 1 + FirstPadChar(cs[1..])
  }

  function Pads(k: nat): (r: seq<scalar>)
    ensures |r| == k && forall i :: 0 <= i < k ==> r[i] == 0xFFFF
  {
    seq(k, i => 0xFFFF)
  }

  /** The text of the name that the entries of a text stand for. */
  function KnownText(cs: seq<scalar>): seq<scalar> {
    var j := FirstPadChar(cs);
    var i := |Text16(cs[..j])|;
    if j == |cs| then cs else cs[..j] + Pads(13 * (i / 13 + 1) - i)
  }

  lemma {:induction false} NoPadUnits(cs: seq<scalar>)
    requires forall k :: 0 <= k < |cs| ==> cs[k] != 0xFFFF
    ensures forall k :: 0 <= k < |Text16(cs)| ==> Text16(cs)[k] != PAD
    decreases |cs|
  {
    if cs != [] {
      NoPadUnits(cs[1..]);
      CharUnits(cs[0]);
      var u, v := Utf16(cs[0]), Text16(cs[1..]);
      assert Text16(cs) == u + v;
    }
  }

  lemma {:induction false} PadsUnits(k: nat)
    ensures Text16(Pads(k)) == seq(k, i => PAD)
    decreases k
  {
    if k > 0 {
      assert Pads(k)[1..] == Pads(k - 1);
      PadsUnits(k - 1);
      assert seq(k, i => PAD) == [PAD] + seq(k - 1, i => PAD);
    }
  }

  /** A text that is cut at its first character U+FFFF. */
  lemma PadSplit(cs: seq<scalar>)
    ensures var j, n := FirstPadChar(cs), Text16(cs);
            && FirstPad(n) == |Text16(cs[..j])| && n[..FirstPad(n)] == Text16(cs[..j])
            && n == Text16(cs[..j]) + Text16(cs[j..]) && (j < |cs| <==> FirstPad(n) < |n|)
  {
    var j := FirstPadChar(cs);
    assert cs == cs[..j] + cs[j..];
    Text16Append(cs[..j], cs[j..]);
    NoPadUnits(cs[..j]);
    var n, u, w := Text16(cs), Text16(cs[..j]), Text16(cs[j..]);
    if j < |cs| { assert w[0] == PAD && n[|u|] == PAD; }
    assert n[..|u|] == u;
    assert forall k :: 0 <= k < |u| ==> n[k] != PAD;
  }

  lemma KnownTextUnits(cs: seq<scalar>)
    ensures Text16(KnownText(cs)) == KnownAs(Text16(cs))
  {
    hide Text16, FirstPad, FirstPadChar, Pads;
    PadSplit(cs);
    var j := FirstPadChar(cs);
    if j < |cs| {
      var i := |Text16(cs[..j])|;
      var k := 13 * (i / 13 + 1) - i;
      PadsUnits(k);
      Text16Append(cs[..j], Pads(k));
    }
  }

  /** It is the text itself exactly when that is stored faithfully. */
  lemma KnownTextExactly(cs: seq<scalar>)
    requires 0 !in Text16(cs)
    ensures KnownText(cs) == cs <==> Spells(Text16(cs))
  {
    hide Text16, FirstPad, FirstPadChar, Pads, Spells, KnownAs;
    KnownTextUnits(cs);
    KnownExactly(Text16(cs));
    var j := FirstPadChar(cs);
    if Spells(Text16(cs)) && j < |cs| {
      PadSplit(cs);
      var i := |Text16(cs[..j])|;
      var k := 13 * (i / 13 + 1) - i;
      PadsUnits(k);
      Text16Append(cs[..j], Pads(k));
      assert Text16(cs[j..]) == Text16(cs)[i..] == seq(k, i => PAD);
      OnlyPads(cs[j..], k);
      assert cs == cs[..j] + cs[j..];
    }
  }

  lemma {:induction false} OnlyPads(cs: seq<scalar>, k: nat)
    requires Text16(cs) == seq(k, i => PAD)
    ensures cs == Pads(k)
    decreases |cs|
  {
    if cs != [] {
      CharUnits(cs[0]);
      var u, v := Utf16(cs[0]), Text16(cs[1..]);
      assert Text16(cs) == u + v && (u + v)[0] == u[0] == PAD;
      assert u == [PAD] && cs[0] == 0xFFFF;
      assert v == (u + v)[1..] == seq(k - 1, i => PAD);
      OnlyPads(cs[1..], k - 1);
      assert Pads(k) == [0xFFFF] + Pads(k - 1);
    }
  }

  // ---------------------------------------------------------------- put in and listed

  /** Reading a registered name back: where it is, and that the long name its entries stand for is picked or
      its short name stands for it. */
  lemma ReadsCreated(fromOem: unit -> unit, t: seq<Entry>, a: nat, es: seq<Entry>, n: Name, m: seq<unit>, fn: seq<byte>,
                     body: seq<unit>, ext: seq<unit>, st: Scan, b: Buffer)
    requires IsBlock(es, n) && StandsAt(t, a, es) && IsCreated(n, m, fn, body, ext)
    requires forall c: unit :: c < 0x80 ==> fromOem(c) == c
    ensures ReadFrom(t, a, st) == Found(a + PartsOf(n), ReadTold(n, a, st))
    ensures n.long && |KnownAs(m)| <= MAX_LFN ==>
              HasName(PickedParts(b, t[a + Passes(n)..a + PartsOf(n)]), KnownAs(m))
    ensures !n.long ==> forall k :: 0 <= k < |m| ==> m[k] < 0x80
    ensures var e := t[a + PartsOf(n)];
            !n.long ==> IsAscii(fromOem, e[0..11]) && Dotted(e[0..11]) != [] && Restored(e[0..11], e[12] as nat) == m
  {
    hide Dotted, Restored, PickedParts, ReadFrom, IsPart, Is83, KnownAs, ReadTold, Passes;
    assert SfnEntry(fn)[..11][0] == fn[..11][0];
    ReadsBack(t, a, es, n, st, b);
    var P := PartsOf(n);
    assert t[a + P] == es[P] == n.sfn;
    if !n.long {
      FormIsAscii(m, body, ext, fn);
      var e := t[a + P];
      assert e[0..11] == e[..11] == fn[..11];
    }
  }

  /** The registered name is told with its own long name, or without one: no entries left before a short
      name are taken for its own. */
  ghost predicate ToldRightly(t: seq<Entry>, a: nat, n: Name)
    requires a <= |t|
  {
    n.long || ReadTold(n, a, Arrived(t, 0, a, Fresh(NO_BLOCK))) == NO_BLOCK
  }

  /** A text that get_fileinfo has room for. */
  predicate HasRoom(cs: seq<scalar>) { |Text16(cs)| <= MAX_LFN && |Text8(cs)| <= LFN_BUF }

  /** A path segment of legal characters is created as a name, registered in the directory, met when the
      directory is read from its top, and told as text: the same characters, without trailing spaces and
      dots, up to a character U+FFFF. */
  method PutAndList(up: unit -> unit, toOem: unit -> unit, fromOem: unit -> unit,
                    numbered: (seq<byte>, nat) -> seq<byte>,
                    d: Dir, s: seq<byte>, i: nat, ghost cs: seq<scalar>, ghost chain: seq<nat>, fname: array<byte>,
                    altname: array<byte>)
    returns (res: FResult, ghost len: nat, ghost t1: seq<Entry>, ghost a: nat, ghost es: seq<Entry>, ghost n: Name)
    requires Sound(d, chain) && NoneAfterEnd(d.Tab()) && IsOem(toOem) && Numbers(numbered)
    requires forall c: unit :: c < 0x80 ==> fromOem(c) == c
    requires i <= |s| && SegmentAt(s, i) == Chars(cs) && Snipped(cs) != []
    requires fname.Length == 256 && altname.Length == 13 && altname != fname
    requires fname != d.fs.win && altname != d.fs.win && fname != d.fn && altname != d.fn
    modifies d`dptr, d`clust, d`sect, d`blkOfs, d.fn, d.lfnbuf, fname, altname
    modifies d.fs`wflag, d.fs`winsect, d.fs`logical, d.fs`fat, d.fs`freeClst, d.fs`lastClst, d.fs`infoDue, d.fs.win
    modifies d.fs.disk
    ensures d.fs.disk.reliable ==> res == OK || res == DENIED || |Text16(cs)| > MAX_LFN
    ensures res == OK ==> n.units == Text16(Snipped(cs)) && NowRegistered(d, old(d.Tab()), t1, a, es, n)
    ensures res == OK ==> len <= LFN_BUF && fname[len] == 0
    ensures res == OK && HasRoom(KnownText(Snipped(cs))) && ToldRightly(t1, a, n) ==>
              fname[..len] == Text8(KnownText(Snipped(cs)))
  {
    hide Fatfs.Valid, Fatfs.Consistent;
    hide Coherent, Mirrored, Text16, Text8, Snipped, Trimmed, SegmentAt, Is83, HasName, Table, ReadFrom, HasRoom;
    hide PickedParts, FirstParts, ToldRightly, KnownText;
    hide NoneAfterEnd, Chained, OthersKept, Restored, Dotted, IsBlock, Grown, SfnEntry, AllocFrom, WithoutBlanks;
    hide SectorAt, ClusterAt, Count, Laid, StandsAt, FatLaid, Registered, ShortBytes, Lossy;
    len := 0;
    SnippedUnits(cs);
    TextUnits(Snipped(cs));
    ghost var m, t0 := Text16(Snipped(cs)), d.Tab();
    t1, a, es, n := t0, 0, [], Name(m, false, Blank());
    var next;
    ghost var body, ext;
    res, next, body, ext := CreateName(toOem, s, i, d.lfnbuf, d.fn);
    if res != OK { return; }
    ghost var chain';
    res, t1, a, es, chain' := DirRegister(up, numbered, d, m, chain);
    if res != OK { return; }
    ghost var fn := d.fn[..];
    n := Name(m, fn[11] as nat / 2 % 2 == 1, SfnEntry(fn));
    BlockNotEmpty(es, n);
    RegisteredStands(t1, a, es);
    RightlyStill(t1, a, es, n);
    res, len := ListName(fromOem, d, d.dptr, a, es, n, m, Snipped(cs), body, ext, fname, altname);
  }

  lemma RegisteredStands(t: seq<Entry>, a: nat, es: seq<Entry>)
    requires a + |es| <= |t|
    ensures StandsAt(Registered(t, a, es), a, es)
  {
  }

  lemma RightlyStill(t: seq<Entry>, a: nat, es: seq<Entry>, n: Name)
    requires FreeBlock(t, a, |es|)
    ensures ToldRightly(Registered(t, a, es), a, n) <==> ToldRightly(t, a, n)
    ensures forall k :: 0 <= k < a ==> Registered(t, a, es)[k][0] != 0
  {
    hide ReadTold;
    ArrivedSame(t, Registered(t, a, es), 0, a, Fresh(NO_BLOCK));
  }

  lemma EntrySlices(w: seq<byte>, o: nat)
    requires o + 32 <= |w|
    ensures EntryAt(w, o)[0..11] == w[o..o + 11] && EntryAt(w, o)[12] == w[o + 12]
  {
  }

  lemma TextUnits(cs: seq<scalar>)
    ensures cs != [] <==> Text16(cs) != []
  {
  }

  /** dir_sdi to the top, and dir_read and dir_next up to the object at offset `target`. */
  method ReadUpTo(d: Dir, target: nat, ghost k: nat) returns (res: FResult, ghost b: Buffer)
    requires d.Valid() && target == 32 * k && k < |d.Tab()| && IsObject(d.Tab()[k])
    requires forall i :: 0 <= i < k ==> d.Tab()[i][0] != 0
    modifies d`dptr, d`clust, d`sect, d`blkOfs, d.lfnbuf, d.fs`wflag, d.fs`winsect, d.fs.win, d.fs.disk
    ensures d.Valid() && d.Tab() == old(d.Tab()) && (res == OK || res == DISK_ERR)
    ensures d.fs.disk.reliable ==> res == OK
    ensures res == OK ==>
              d.fs.geo.csize > 0 && d.At(k)
              && d.blkOfs == LongNameOf(Arrived(d.Tab(), 0, k, Fresh(NO_BLOCK)), d.Tab()[k])
              && (d.blkOfs != NO_BLOCK ==> d.Picking(d.Tab(), 0, k, b))
  {
    hide Coherent, Mirrored, Decodes, Table, ReadFrom, PickedParts, SectorAt, ClusterAt, Count, FatLaid, HasFat;
    hide Arrived, LongNameOf, IsObject, ZeroFrom;
    ghost var t, b0 := d.Tab(), d.blkOfs;
    b := d.lfnbuf[..];
    BlockForgotten(t, 0, k, Fresh(NO_BLOCK), Fresh(b0), t[k]);
    EntryExists(d.fs.geo, d.fs.size, d.fs.fat, d.fs.logical, d.sclust, 0);
    res := d.Sdi(0);
    if res != OK { return; }
    ghost var i := 0;
    var done := false;
    while !done
      invariant d.Valid() && d.Tab() == t && res == OK && d.fs.geo.csize > 0
      invariant i <= k && LongNameOf(Arrived(t, 0, k, Fresh(b0)), t[k]) ==
                  if done then d.blkOfs else LongNameOf(Arrived(t, i, k, Fresh(d.blkOfs)), t[k])
      invariant if done then d.At(k) && (d.blkOfs != NO_BLOCK ==> d.Picking(t, 0, k, b)) else d.At(i)
      decreases if done then 0 else 1, k - i
    {
      ComesTo(t, i, k, Fresh(d.blkOfs));
      ghost var at;
      res, at, b := d.ReadObject(i);
      if res != OK { return; }
      if d.dptr == target {
        done := true;
      } else {
        EntryExists(d.fs.geo, d.fs.size, d.fs.fat, d.fs.logical, d.sclust, at + 1);
        res := d.Next(at);
        if res != OK { return; }
        i := at + 1;
      }
    }
  }

  /** Reading the directory from its top up to a registered name, and get_fileinfo. */
  method ListName(fromOem: unit -> unit, d: Dir, target: nat, ghost a: nat, ghost es: seq<Entry>, ghost n: Name,
                  ghost m: seq<unit>, ghost cs: seq<scalar>, ghost body: seq<unit>, ghost ext: seq<unit>,
                  fname: array<byte>, altname: array<byte>)
    returns (res: FResult, ghost len: nat)
    requires d.Valid() && IsBlock(es, n) && StandsAt(d.Tab(), a, es) && IsCreated(n, m, d.fn[..], body, ext)
    requires forall i :: 0 <= i < a ==> d.Tab()[i][0] != 0
    requires m == Text16(cs) && cs != [] && target == 32 * (a + PartsOf(n))
    requires forall c: unit :: c < 0x80 ==> fromOem(c) == c
    requires fname.Length == 256 && altname.Length == 13 && altname != fname && fname != d.fs.win && altname != d.fs.win
    modifies d`dptr, d`clust, d`sect, d`blkOfs, d.lfnbuf, fname, altname, d.fs`wflag, d.fs`winsect, d.fs.win, d.fs.disk
    ensures d.Valid() && d.Tab() == old(d.Tab()) && (d.fs.disk.reliable ==> res == OK)
    ensures res == OK ==> len <= LFN_BUF && fname[len] == 0
    ensures res == OK && HasRoom(KnownText(cs)) && ToldRightly(d.Tab(), a, n) ==> fname[..len] == Text8(KnownText(cs))
  {
    hide Coherent, Mirrored, Text16, Text8, HasName, Table, ReadFrom, PickedParts, FirstParts, IsBlock, NameIn;
    hide Restored, Dotted, KnownText, ReadTold, Arrived, LongNameOf, IsObject, ZeroFrom, ToldRightly;
    hide SectorAt, ClusterAt, Count, Laid, IsCreated, StandsAt, IsAscii, FatLaid;
    len := 0;
    ghost var t, k, ks := d.Tab(), a + PartsOf(n), KnownText(cs);
    BlockObject(t, a, es, n, m, d.fn[..], body, ext);
    ghost var b;
    res, b := ReadUpTo(d, target, k);
    if res != OK { return; }
    var o;
    res, o := d.Show(k);
    if res != OK { return; }
    EntrySlices(d.fs.win[..], o);
    assert d.fs.win[..][o..o + 11] == d.fs.win[o..o + 11];
    ghost var u := m;
    if d.blkOfs != NO_BLOCK { u := PickedName(d.lfnbuf[..]); }
    if HasRoom(ks) && ToldRightly(t, a, n) {
      TellsCreated(fromOem, t, a, es, n, m, d.fn[..], body, ext, cs, b, d.blkOfs);
      if n.long { SameNames(d.lfnbuf[..], u, Text16(ks)); }
    }
    len := GetFileInfo(fromOem, d.lfnbuf, u, ks, d.blkOfs != NO_BLOCK, d.fs.win, o, fname, altname);
  }

  /** A registered name ends in an object, with no end mark before it. */
  lemma BlockObject(t: seq<Entry>, a: nat, es: seq<Entry>, n: Name, m: seq<unit>, fn: seq<byte>, body: seq<unit>,
                    ext: seq<unit>)
    requires IsBlock(es, n) && StandsAt(t, a, es) && IsCreated(n, m, fn, body, ext)
    requires forall i :: 0 <= i < a ==> t[i][0] != 0
    ensures var k := a + PartsOf(n);
            k < |t| && t[k] == n.sfn && IsObject(t[k]) && forall i :: 0 <= i < k ==> t[i][0] != 0
  {
    hide Is83, AreParts;
    assert SfnEntry(fn)[..11][0] == fn[..11][0];
    assert t[a + PartsOf(n)] == es[PartsOf(n)];
    BlockNoEnd(t, a, es, n);
  }

  /** What reading comes to at the object: the buffer holds the name that the entries stand for, or there is
      no long name and the short one stands for it. */
  lemma TellsCreated(fromOem: unit -> unit, t: seq<Entry>, a: nat, es: seq<Entry>, n: Name, m: seq<unit>, fn: seq<byte>,
                     body: seq<unit>, ext: seq<unit>, cs: seq<scalar>, b: Buffer, blk: nat)
    requires IsBlock(es, n) && StandsAt(t, a, es) && IsCreated(n, m, fn, body, ext) && m == Text16(cs) && cs != []
    requires forall c: unit :: c < 0x80 ==> fromOem(c) == c
    requires forall i :: 0 <= i < a ==> t[i][0] != 0
    requires a + PartsOf(n) < |t| && blk == LongNameOf(Arrived(t, 0, a + PartsOf(n), Fresh(NO_BLOCK)), n.sfn)
    requires HasRoom(KnownText(cs)) && ToldRightly(t, a, n)
    ensures KnownText(cs) != []
    ensures n.long ==>
              blk % 32 == 0 && blk / 32 <= a + PartsOf(n) && blk != NO_BLOCK
              && HasName(PickedParts(b, t[blk / 32..a + PartsOf(n)]), Text16(KnownText(cs)))
    ensures var e := t[a + PartsOf(n)];
            !n.long ==> blk == NO_BLOCK && IsAscii(fromOem, e[0..11]) && Dotted(e[0..11]) != []
                        && Restored(e[0..11], e[12] as nat) == Text8(KnownText(cs))
  {
    hide Dotted, Restored, PickedParts, ReadFrom, IsPart, Is83, KnownAs, Passes, Arrived, LongNameOf, HasName;
    hide Text16, Text8, KnownText, AreParts, Spells, IsAscii, FirstPad;
    var st := Arrived(t, 0, a, Fresh(NO_BLOCK));
    BlockNoEnd(t, a, es, n);
    ArrivedSplit(t, 0, a, a + PartsOf(n), Fresh(NO_BLOCK));
    BlockRead(t, a, es, n, st);
    ReadsCreated(fromOem, t, a, es, n, m, fn, body, ext, st, b);
    KnownTextUnits(cs);
    TextUnits(cs);
    TextUnits(KnownText(cs));
    KnownUnits(m);
    if !n.long {
      AsciiPlain(m);
      KnownTextExactly(cs);
      SameText(m, cs);
    }
  }

  lemma AsciiPlain(m: seq<unit>)
    requires forall k :: 0 <= k < |m| ==> m[k] < 0x80
    ensures Spells(m)
  {
  }

  lemma SameNames(b: Buffer, u: seq<unit>, v: seq<unit>)
    requires HasName(b, u) && HasName(b, v)
    ensures u == v
  {
    NameUnits(b, u);
    NameUnits(b, v);
    assert |u| == |v|;
  }

  lemma PickedName(b: Buffer) returns (u: seq<unit>)
    requires ZeroFrom(b, 0)
    ensures HasName(b, u)
  {
    u := NameIn(b);
  }

  /** A text in UTF-8 is the units of its ASCII characters when it has no others. */
  lemma {:induction false} SameText(m: seq<unit>, cs: seq<scalar>)
    requires m == Text16(cs)
    ensures (forall k :: 0 <= k < |m| ==> m[k] < 0x80) ==> Text8(cs) == m
    decreases |cs|
  {
    if cs != [] && forall k :: 0 <= k < |m| ==> m[k] < 0x80 {
      var u, v := Utf16(cs[0]), Text16(cs[1..]);
      assert m == u + v && m[0] == u[0];
      CharUnits(cs[0]);
      assert forall k :: 0 <= k < |v| ==> v[k] == m[|u| + k];
      SameText(v, cs[1..]);
    }
  }

  /** The name of the characters A, U+FFFF and B is accepted, but what put_lfn makes of it is not read back. */
  lemma PadNameLost(es: seq<Entry>, b: Buffer, sum: byte)
    ensures var cs: seq<scalar> := [65, 0xFFFF, 66];
            SegmentAt(Text8(cs), 0) == Chars(cs) && NameOf(Chars(cs)) == [65, 0xFFFF, 66] && Fits(Chars(cs))
    ensures AreParts(es, [65, 0xFFFF, 66], sum) && |es| == 1 ==>
              !(AllGood(es) && HasName(PickedParts(b, es), [65, 0xFFFF, 66]))
  {
    var cs: seq<scalar> := [65, 0xFFFF, 66];
    var n: seq<unit> := [65, 0xFFFF, 66];
    assert Text8(cs)[0..|Text8(cs)|] == Text8(cs);
    SegmentOf(Text8(cs), 0, cs);
    assert cs[1..] == [0xFFFF, 66] && cs[1..][1..] == [66] && cs[1..][1..][1..] == [];
    assert Text16(cs) == n;
    assert n[1] == PAD;
    if AreParts(es, n, sum) && |es| == 1 { PutPickExactly(b, es, n, sum); }
  }
}
