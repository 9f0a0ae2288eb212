/** f_puts: text written through an incremental decoder and a 64-byte buffer. */
module Strings {
  import opened Bytes
  import opened Window
  import opened FileSpec
  import opened FileState
  import opened File
  import opened Utf
  import opened Text

  // ---------------------------------------------------------------- the incremental decoder

  /** Bytes of a character so far, and how many are still to come. */
  datatype Pending = Pending(bs: seq<byte>, ct: nat)

  const IDLE: Pending := Pending([], 0)

  predicate Sane(p: Pending) { p.ct <= 3 && (p.ct > 0 ==> 1 <= |p.bs| && |p.bs| + p.ct <= 4) }

  /** What decoded bytes are written as: the character in its shortest form, nothing when there is none. */
  function Recoded(bs: seq<byte>): (r: seq<byte>)
    ensures |r| <= 4
  {
    var c := Coded(bs, 0);
    if c == -1 then [] else (CodedIsScalar(bs, 0); Utf8(c))
  }

  /** A byte that starts a character, or is one, or is dropped. */
  function Start(c: byte): (r: (Pending, seq<byte>))
    ensures Sane(r.0)
  {
    if c < 0x80 then (IDLE, [c]) else (Pending([c], Trailing(c)), [])
  }

  /** One byte through the decoder: what is pending then, and the bytes that come out. */
  function Feed(p: Pending, c: byte): (r: (Pending, seq<byte>))
    requires Sane(p)
    ensures Sane(r.0) && |r.1| <= 4
  {
    if p.ct == 0 || !IsTrail(c) then Start(c)
    else if p.ct > 1 then (Pending(p.bs + [c], p.ct - 1), [])
    else (IDLE, Recoded(p.bs + [c]))
  }

  /** All bytes that come out when s goes in. */
  function Out(p: Pending, s: seq<byte>): (r: seq<byte>)
    requires Sane(p)
    decreases |s|
  {
    if s == [] then [] else Feed(p, s[0]).1 + Out(Feed(p, s[0]).0, s[1..])
  }

  /** A character in its shortest form comes out as it went in. */
  lemma OutChar(c: scalar, t: seq<byte>)
    requires IsScalar(c)
    ensures Out(IDLE, Utf8(c) + t) == Utf8(c) + Out(IDLE, t)
  {
    var u := Utf8(c);
    DecodesEncoded(u, 0, c);
    var s := u + t;
    if c < 0x80 {
      assert s[1..] == t;
    } else if c < 0x800 {
      OutTwo(u, t);
    } else if c < 0x1_0000 {
      OutThree(u, t);
    } else {
      OutFour(u, t);
    }
  }

  lemma OutLast(b: seq<byte>, x: byte, t: seq<byte>)
    requires 1 <= |b| <= 3 && IsTrail(x)
    ensures Out(Pending(b, 1), [x] + t) == Recoded(b + [x]) + Out(IDLE, t)
  {
    assert ([x] + t)[1..] == t;
  }

  lemma OutMore(b: seq<byte>, n: nat, x: byte, t: seq<byte>)
    requires 1 <= |b| && n > 1 && |b| + n <= 4 && IsTrail(x)
    ensures Out(Pending(b, n), [x] + t) == Out(Pending(b + [x], n - 1), t)
  {
    assert ([x] + t)[1..] == t;
  }

  lemma OutLead(x: byte, t: seq<byte>)
    requires x >= 0xC0 && Trailing(x) > 0
    ensures Out(IDLE, [x] + t) == Out(Pending([x], Trailing(x)), t)
  {
    assert ([x] + t)[1..] == t;
  }

  lemma OutTwo(u: seq<byte>, t: seq<byte>)
    requires |u| == 2 && Trailing(u[0]) == 1 && IsTrail(u[1])
    ensures Out(IDLE, u + t) == Recoded(u) + Out(IDLE, t)
  {
    hide Out, Recoded;
    assert u + t == [u[0]] + ([u[1]] + t) && [u[0]] + [u[1]] == u;
    OutLead(u[0], [u[1]] + t);
    OutLast([u[0]], u[1], t);
  }

  lemma OutThree(u: seq<byte>, t: seq<byte>)
    requires |u| == 3 && Trailing(u[0]) == 2 && IsTrail(u[1]) && IsTrail(u[2])
    ensures Out(IDLE, u + t) == Recoded(u) + Out(IDLE, t)
  {
    hide Out, Recoded;
    assert u + t == [u[0]] + ([u[1]] + ([u[2]] + t)) && [u[0]] + [u[1]] + [u[2]] == u;
    OutLead(u[0], [u[1]] + ([u[2]] + t));
    OutMore([u[0]], 2, u[1], [u[2]] + t);
    OutLast([u[0]] + [u[1]], u[2], t);
  }

  lemma OutFour(u: seq<byte>, t: seq<byte>)
    requires |u| == 4 && Trailing(u[0]) == 3 && IsTrail(u[1]) && IsTrail(u[2]) && IsTrail(u[3])
    ensures Out(IDLE, u + t) == Recoded(u) + Out(IDLE, t)
  {
    hide Out, Recoded;
    assert u + t == [u[0]] + ([u[1]] + ([u[2]] + ([u[3]] + t))) && [u[0]] + [u[1]] + [u[2]] + [u[3]] == u;
    OutLead(u[0], [u[1]] + ([u[2]] + ([u[3]] + t)));
    OutMore([u[0]], 3, u[1], [u[2]] + ([u[3]] + t));
    OutMore([u[0]] + [u[1]], 2, u[2], [u[3]] + t);
    OutLast([u[0]] + [u[1]] + [u[2]], u[3], t);
  }

  /** Text in its shortest form comes out as it went in. */
  lemma {:induction false} OutText(cs: seq<scalar>)
    ensures Out(IDLE, Text8(cs)) == Text8(cs)
  {
    if cs != [] {
      OutChar(cs[0], Text8(cs[1..]));
      OutText(cs[1..]);
    }
  }

  // ---------------------------------------------------------------- putc_bfd

  const BUF_SIZE: nat := 64

  /** The putbuff: decoder and buffer of the text written to a file. */
  class PutBuff {
    const fp: Fil
    var idx: int               // bytes in buf, -1 after an error
    var nchr: nat              // units put
    const bs: array<byte>
    var wi: nat
    var ct: nat
    const buf: array<byte>
    ghost var out: seq<byte>   // all bytes that came out of the decoder

    /** putc_init. */
    constructor (f: Fil)
      ensures fp == f && idx == 0 && nchr == 0 && out == [] && ct == 0 && Sized() && fresh(bs) && fresh(buf)
    {
      fp, idx, nchr, wi, ct, out := f, 0, 0, 0, 0, [];
      bs := new byte[4](i => 0);
      buf := new byte[BUF_SIZE](i => 0);
    }

    ghost predicate Sized()
      reads this
    {
      bs.Length == 4 && buf.Length == BUF_SIZE && bs != buf
    }

    /** The decoder stands where p says. */
    ghost predicate Decoding(p: Pending)
      reads this, bs
    {
      Sized() && Sane(p) && ct == p.ct && (ct > 0 ==> wi + 1 == |p.bs| <= 4 && bs[..wi + 1] == p.bs)
    }

    /** The first half of putc_bfd: take a byte; a character is complete when `done`. */
    method Decode(c: byte, ghost p: Pending) returns (done: bool, dc: dword)
      requires Decoding(p)
      modifies this`wi, this`ct, bs
      ensures Decoding(Feed(p, c).0)
      ensures Feed(p, c).1 == if done && dc != NO_CHAR then (if IsPacked(dc) then Utf8(Unpacked(dc)) else []) else []
      ensures done && dc != NO_CHAR ==> IsPacked(dc)
    {
      hide Coded, Utf8, Unpacked;
      dc := NO_CHAR;
      done := false;
      if ct > 0 && !(0x80 <= c < 0xC0) { ct := 0; }
      if ct == 0 {
        wi := 0;
        bs[0] := c;
        if c >= 0x80 {
          ct := Trailing(c);
          return;
        }
        done := true;
      } else {
        wi := wi + 1;
        bs[wi] := c;
        ct := ct - 1;
        assert bs[..wi + 1] == p.bs + [c];
        if ct > 0 { return; }
        done := true;
      }
      ghost var b := bs[..wi + 1];
      OneChar(b);
      var next;
      dc, next := TcharToUni(bs[..wi + 1], 0);
    }

    /** The second half of putc_bfd: put a character into the buffer. */
    method Emit(dc: dword)
      requires Sized() && 0 <= idx < BUF_SIZE - 4 && IsPacked(dc)
      modifies this`idx, this`nchr, this`out, buf
      ensures idx == old(idx) + |Utf8(Unpacked(dc))| < BUF_SIZE && nchr == old(nchr) + |Utf8(Unpacked(dc))|
      ensures buf[..idx] == old(buf[..idx]) + Utf8(Unpacked(dc)) && out == old(out) + Utf8(Unpacked(dc))
    {
      hide Utf8, Unpacked;
      UnitBytes(dc);
      var i, nc: nat := idx, nchr;
      var hs, wc := dc / 0x1_0000, dc % 0x1_0000;
      ghost var u, f := Utf8(Unpacked(dc)), buf[..idx];
      if hs != 0 {
        nc := nc + 3;
        var h := hs % 0x400 + 0x40;
        PairBytes(dc);
        buf[i], buf[i + 1] := 0xF0 + h / 0x100, 0x80 + h / 4 % 0x40;
        buf[i + 2], buf[i + 3] := 0x80 + h % 4 * 16 + wc / 0x40 % 16, 0x80 + wc % 0x40;
        i := i + 4;
      } else if wc < 0x80 {
        buf[i] := wc;
        i := i + 1;
      } else if wc < 0x800 {
        nc := nc + 1;
        buf[i], buf[i + 1] := 0xC0 + wc / 0x40, 0x80 + wc % 0x40;
        i := i + 2;
      } else {
        nc := nc + 2;
        buf[i], buf[i + 1], buf[i + 2] := 0xE0 + wc / 0x1000, 0x80 + wc / 0x40 % 0x40, 0x80 + wc % 0x40;
        i := i + 3;
      }
      assert buf[..i] == f + u;
      idx, nchr, out := i, nc + 1, out + u;
    }

    /** The file holds what came out of the decoder, but for what is still in the buffer; after an error
        the file cannot take more. */
    ghost predicate Written(s0: State, c0: seq<byte>)
      reads this, fp, fp.fs
    {
      var k := fp.fptr - s0.fptr;
      s0.fptr <= |c0| && 0 <= k <= |out| && Became(s0, fp.St(), Splice(c0, s0.fptr, out[..k])).Sound?
      && (if idx >= 0 then k == |out| - idx else !fp.mayWrite || fp.Full() || fp.fptr == DWORD_MAX)
    }

    ghost predicate Writing(s0: State, c0: seq<byte>)
      reads this, buf, bs, fp, fp.buf, fp.fs, fp.fs.win, fp.fs.disk
    {
      && Sized() && bs != fp.buf && buf != fp.buf && bs != fp.fs.win && buf != fp.fs.win
      && fp.Usable() && -1 <= idx < BUF_SIZE
      && (idx >= 0 ==> nchr == |out| && idx <= |out| && buf[..idx] == out[|out| - idx..])
      && (fp.err == OK ==> Written(s0, c0))
    }

    /** Write the buffer to the file, and empty it when all of it is written. */
    method Drain(ghost s0: State, ghost c0: seq<byte>) returns (res: FResult, n: nat)
      requires Writing(s0, c0) && idx >= 0
      modifies this`idx, fp`chain, fp`sclust, fp`clust, fp`sect, fp`dirty, fp`fptr, fp`objsize, fp`shown, fp`err
      modifies fp`modified, fp.buf
      modifies fp.fs`wflag, fp.fs`winsect, fp.fs`logical, fp.fs`fat, fp.fs`freeClst, fp.fs`lastClst, fp.fs`infoDue
      modifies fp.fs.win, fp.fs.disk
      ensures Writing(s0, c0) && out == old(out)
      ensures idx == if n == old(idx) && res == OK then 0 else -1
      ensures old(fp.err) == OK && fp.fs.disk.reliable ==> fp.err == OK
      ensures fp.err == OK ==> old(fp.err) == OK
      ensures idx >= 0 ==> fp.err == OK
    {
      hide Fatfs.Valid, Fatfs.Consistent;
      hide Became, Splice, SectorCount, Judge, FileBytes, Covers, Fil.Valid, Fil.Full;
      ghost var t, k := fp.St(), |out| - idx;
      ghost var i := idx;
      if fp.err == OK {
        StateLimits(fp);
        BecameGives(s0, t, Splice(c0, s0.fptr, out[..k]));
      }
      res, n := fp.Write(buf[..idx]);
      if res == OK {
        SpliceMore(c0, s0.fptr, out, k, n);
        BecameThen(s0, t, Splice(c0, s0.fptr, out[..k]), fp.St(), Splice(c0, s0.fptr, out[..k + n]));
      }
      idx := if n == idx && res == OK then 0 else -1;
      Empties(out, buf[..]);
      assert buf[..0] == buf[..][..0];
      assert res == OK ==> fp.fptr - s0.fptr == k + n;
    }

    /** putc_bfd: one byte of text. */
    method Putc(c: byte, ghost p: Pending, ghost s0: State, ghost c0: seq<byte>)
      requires Writing(s0, c0) && idx < BUF_SIZE - 4 && (idx >= 0 ==> Decoding(p)) && Sane(p)
      modifies this`idx, this`nchr, this`wi, this`ct, this`out, bs, buf
      modifies fp`chain, fp`sclust, fp`clust, fp`sect, fp`dirty, fp`fptr, fp`objsize, fp`shown, fp`err, fp`modified
      modifies fp.buf
      modifies fp.fs`wflag, fp.fs`winsect, fp.fs`logical, fp.fs`fat, fp.fs`freeClst, fp.fs`lastClst, fp.fs`infoDue
      modifies fp.fs.win, fp.fs.disk
      ensures Writing(s0, c0) && idx < BUF_SIZE - 4 && (idx >= 0 ==> Decoding(Feed(p, c).0))
      ensures idx >= 0 ==> old(idx) >= 0 && out == old(out) + Feed(p, c).1
      ensures old(idx) < 0 ==> idx < 0
      ensures fp.err == OK ==> old(fp.err) == OK
      ensures old(fp.err) == OK && fp.fs.disk.reliable ==> fp.err == OK
    {
      hide Became, Splice, SectorCount, Judge, FileBytes, Covers, Feed, Utf8, Unpacked, Fil.Usable;
      if idx < 0 { return; }
      ghost var o, q := out, Feed(p, c);
      var done, dc := Decode(c, p);
      if done && dc != NO_CHAR {
        ghost var i, u := idx, Utf8(Unpacked(dc));
        Emit(dc);
        TailOn(o, u, |o| - i);
        if idx >= BUF_SIZE - 4 {
          var res, n := Drain(s0, c0);
        }
      }
    }

    /** putc_flush: write what is left in the buffer; the number of units put, -1 on an error. */
    method Flush(ghost s0: State, ghost c0: seq<byte>) returns (r: int)
      requires Writing(s0, c0)
      modifies this`idx
      modifies fp`chain, fp`sclust, fp`clust, fp`sect, fp`dirty, fp`fptr, fp`objsize, fp`shown, fp`err, fp`modified
      modifies fp.buf
      modifies fp.fs`wflag, fp.fs`winsect, fp.fs`logical, fp.fs`fat, fp.fs`freeClst, fp.fs`lastClst, fp.fs`infoDue
      modifies fp.fs.win, fp.fs.disk
      ensures Writing(s0, c0) && r == if idx >= 0 then nchr else -1
      ensures (idx == -1 || idx == 0) && (idx >= 0 ==> old(idx) >= 0 && fp.err == OK)
      ensures fp.err == OK ==> old(fp.err) == OK
      ensures old(fp.err) == OK && fp.fs.disk.reliable ==> fp.err == OK
    {
      r := -1;
      if idx >= 0 {
        var i := idx;
        var res, n := Drain(s0, c0);
        if res == OK && i == n { r := nchr; }
      }
    }
  }

  /** The bytes of a character of one unit. */
  lemma UnitBytes(dc: dword)
    requires IsPacked(dc)
    ensures var u := Utf8(Unpacked(dc));
            if dc >= 0x1_0000 then |u| == 4
            else if dc < 0x80 then u == [dc]
            else if dc < 0x800 then u == [0xC0 + dc / 0x40, 0x80 + dc % 0x40]
            else u == [0xE0 + dc / 0x1000, 0x80 + dc / 0x40 % 0x40, 0x80 + dc % 0x40]
  {
  }

  lemma SpliceMore(c: seq<byte>, p: nat, o: seq<byte>, k: nat, n: nat)
    requires p <= |c| && k + n <= |o|
    ensures Splice(Splice(c, p, o[..k]), p + k, o[k..][..n]) == Splice(c, p, o[..k + n])
  {
    hide Splice;
    SpliceTwice(c, p, o[..k], o[k..][..n]);
    assert o[..k] + o[k..][..n] == o[..k + n];
  }

  lemma TailOn(o: seq<byte>, u: seq<byte>, k: nat)
    requires k <= |o|
    ensures (o + u)[..k] == o[..k] && (o + u)[k..] == o[k..] + u
  {
  }

  /** The bytes of a string before its first zero byte. */
  function CText(str: seq<byte>): (s: seq<byte>)
    ensures s <= str && 0 !in s && At(str, |s|) == 0
  {
    if str == [] || str[0] == 0 then [] else [str[0]] + CText(str[1..])
  }

  lemma TextByte(str: seq<byte>, i: nat)
    requires i <= |CText(str)|
    ensures At(str, i) == 0 <==> i == |CText(str)|
    ensures i < |CText(str)| ==> At(str, i) == CText(str)[i]
  {
    var s := CText(str);
    if i < |s| { assert s[i] in s; }
  }

  /** The loop of f_puts. */
  method PutAll(pb: PutBuff, str: seq<byte>, ghost s0: State, ghost c0: seq<byte>)
    requires pb.Writing(s0, c0) && pb.idx == 0 && pb.Decoding(IDLE) && pb.out == []
    modifies pb`idx, pb`nchr, pb`wi, pb`ct, pb`out, pb.bs, pb.buf
    modifies pb.fp`chain, pb.fp`sclust, pb.fp`clust, pb.fp`sect, pb.fp`dirty, pb.fp`fptr, pb.fp`objsize, pb.fp`shown
    modifies pb.fp`err
    modifies pb.fp`modified, pb.fp.buf
    modifies pb.fp.fs`wflag, pb.fp.fs`winsect, pb.fp.fs`logical, pb.fp.fs`fat, pb.fp.fs`freeClst, pb.fp.fs`lastClst
    modifies pb.fp.fs`infoDue
    modifies pb.fp.fs.win, pb.fp.fs.disk
    ensures pb.Writing(s0, c0) && (pb.idx >= 0 ==> pb.out == Out(IDLE, CText(str)))
    ensures old(pb.fp.err) == OK && pb.fp.fs.disk.reliable ==> pb.fp.err == OK
    ensures pb.fp.err == OK ==> old(pb.fp.err) == OK
  {
    hide Became, Splice, SectorCount, Judge, FileBytes, Covers, Feed, Out, Holding, Fil.Usable, PutBuff.Writing;
    hide CText, At;
    ghost var p, s := IDLE, CText(str);
    OutEnd(IDLE, s);
    assert [] + Out(IDLE, s) == Out(IDLE, s);
    var i := 0;
    TextByte(str, 0);
    while At(str, i) != 0
      invariant 0 <= i <= |s| && pb.Writing(s0, c0) && pb.idx < BUF_SIZE - 4 && Sane(p)
      invariant At(str, i) == 0 <==> i == |s|
      invariant old(pb.fp.err) == OK && pb.fp.fs.disk.reliable ==> pb.fp.err == OK
      invariant pb.fp.err == OK ==> old(pb.fp.err) == OK
      invariant pb.idx >= 0 ==> pb.Decoding(p) && Out(IDLE, s) == pb.out + Out(p, s[i..])
      decreases |s| - i
    {
      OutNext(p, s, i, pb.out);
      TextByte(str, i);
      TextByte(str, i + 1);
      ghost var q := Feed(p, s[i]).0;
      pb.Putc(At(str, i), p, s0, c0);
      p := q;
      i := i + 1;
    }
    OutEnd(p, s);
    assert pb.out + [] == pb.out;
  }

  /** What file fp holds, when no error is on it. */
  ghost function ContentsOf(fp: Fil): seq<byte>
    requires fp.Usable()
    reads fp, fp.buf, fp.fs, fp.fs.win, fp.fs.disk
  {
    if fp.err == OK then fp.Contents() else []
  }

  /** f_puts: the bytes of a string up to its zero byte, decoded and put into the file; the number of units
      put, -1 when the file cannot take them, or had an error before. */
  method Puts(str: seq<byte>, fp: Fil) returns (r: int)
    requires fp.Usable()
    modifies fp`chain, fp`sclust, fp`clust, fp`sect, fp`dirty, fp`fptr, fp`objsize, fp`shown, fp`err, fp`modified
    modifies fp.buf
    modifies fp.fs`wflag, fp.fs`winsect, fp.fs`logical, fp.fs`fat, fp.fs`freeClst, fp.fs`lastClst, fp.fs`infoDue
    modifies fp.fs.win, fp.fs.disk
    ensures fp.Usable() && -1 <= r && (old(fp.err) == OK && fp.fs.disk.reliable ==> fp.err == OK)
    ensures r >= 0 ==>
              old(fp.err) == OK && fp.err == OK && r == |Out(IDLE, CText(str))| && fp.fptr == old(fp.fptr) + r
              && Became(old(fp.St()), fp.St(), Splice(old(fp.Contents()), old(fp.fptr), Out(IDLE, CText(str)))).Sound?
    ensures r == -1 ==> fp.err != OK || !fp.mayWrite || fp.Full() || fp.fptr == DWORD_MAX
  {
    hide Became, Splice, SectorCount, Judge, FileBytes, Covers, Feed, Out, Holding, Fil.Usable, PutBuff.Writing;
    ghost var s0, c0 := fp.St(), ContentsOf(fp);
    var pb := new PutBuff(fp);
    WritingStarts(pb);
    PutAll(pb, str, s0, c0);
    r := pb.Flush(s0, c0);
    WritingEnds(pb, s0, c0);
  }

  lemma WritingStarts(pb: PutBuff)
    requires pb.Sized() && pb.idx == 0 && pb.nchr == 0 && pb.out == [] && pb.fp.Usable()
    requires pb.bs != pb.fp.buf && pb.buf != pb.fp.buf && pb.bs != pb.fp.fs.win && pb.buf != pb.fp.fs.win
    ensures pb.Writing(pb.fp.St(), ContentsOf(pb.fp))
    ensures pb.fp.err == OK ==> pb.fp.fptr <= |ContentsOf(pb.fp)| && ContentsOf(pb.fp) == pb.fp.Contents()
  {
    hide PutBuff.Written, Judge, FileBytes, Fil.Valid, ContentsOf;
    if pb.fp.err == OK { NothingWritten(pb); }
    Empties(pb.out, pb.buf[..]);
    assert pb.buf[..0] == pb.buf[..][..0];
  }

  lemma Empties(o: seq<byte>, b: seq<byte>)
    ensures b[..0] == [] && o[|o|..] == []
  {
  }

  lemma NothingWritten(pb: PutBuff)
    requires pb.idx == 0 && pb.out == [] && pb.fp.Valid() && pb.fp.err == OK
    ensures pb.Written(pb.fp.St(), pb.fp.Contents())
    ensures ContentsOf(pb.fp) == pb.fp.Contents() && pb.fp.fptr <= |ContentsOf(pb.fp)|
  {
    hide Became, Splice, SectorCount, Judge, FileBytes, Covers, Holding;
    var s0, c0 := pb.fp.St(), pb.fp.Contents();
    BecameNothing(s0);
    Limits(s0);
    SpliceNone(c0, s0.fptr);
    Empties(pb.out, pb.out);
    assert pb.out[..0] == [];
  }

  lemma WritingEnds(pb: PutBuff, s0: State, c0: seq<byte>)
    requires pb.Writing(s0, c0) && pb.idx <= 0 && (pb.idx == 0 ==> pb.fp.err == OK)
    ensures pb.fp.Usable() && (pb.idx == 0 ==> pb.nchr == |pb.out|)
    ensures pb.idx == 0 ==>
              s0.fptr <= |c0| && pb.fp.fptr == s0.fptr + |pb.out|
              && Became(s0, pb.fp.St(), Splice(c0, s0.fptr, pb.out)).Sound?
    ensures pb.idx < 0 ==> pb.fp.err != OK || !pb.fp.mayWrite || pb.fp.Full() || pb.fp.fptr == DWORD_MAX
  {
    hide Became, Splice, SectorCount, Judge, FileBytes, Covers, Holding;
    assert pb.out[..|pb.out|] == pb.out;
  }

  lemma OutNext(p: Pending, s: seq<byte>, i: nat, o: seq<byte>)
    requires Sane(p) && i < |s|
    ensures o + Out(p, s[i..]) == (o + Feed(p, s[i]).1) + Out(Feed(p, s[i]).0, s[i + 1..])
  {
    assert s[i..][1..] == s[i + 1..];
  }

  lemma OutEnd(p: Pending, s: seq<byte>)
    requires Sane(p)
    ensures Out(p, s[|s|..]) == [] && s[0..] == s
  {
  }

  lemma StateLimits(f: Fil)
    requires f.Valid()
    ensures f.fptr <= DWORD_MAX
  {
    Limits(f.St());
  }

  /** One byte below 0x80 is a character; the bytes of a sequence are one or none. */
  lemma OneChar(b: seq<byte>)
    ensures Coded(b, 0) != -1 ==>
              IsPacked(Packed(Coded(b, 0))) && Unpacked(Packed(Coded(b, 0))) == Coded(b, 0)
              && Packed(Coded(b, 0)) != NO_CHAR
    ensures |b| == 1 && b[0] < 0x80 ==> Recoded(b) == b
  {
    CodedIsScalar(b, 0);
    if Coded(b, 0) != -1 { PackedIsPacked(Coded(b, 0)); }
  }

  /** The four bytes of a surrogate pair by its halves. */
  lemma PairBytes(dc: dword)
    requires IsPacked(dc) && dc >= 0x1_0000
    ensures var h, wc := dc / 0x1_0000 % 0x400 + 0x40, dc % 0x1_0000;
            Utf8(Unpacked(dc)) ==
            [0xF0 + h / 0x100, 0x80 + h / 4 % 0x40, 0x80 + h % 4 * 16 + wc / 0x40 % 16, 0x80 + wc % 0x40]
  {
    var h, lo := dc / 0x1_0000 - 0xD800, dc % 0x1_0000 - 0xDC00;
    HalfBits(h, lo);
    SplitPair(h + 0x40, lo);
  }

  lemma HalfBits(h: nat, lo: nat)
    requires h < 0x400 && lo < 0x400
    ensures (0xD800 + h) % 0x400 == h && (0xDC00 + lo) / 0x40 % 16 == lo / 64 && (0xDC00 + lo) % 0x40 == lo % 64
  {
    assert 0xD800 + h == 0x400 * 54 + h;
    assert 0xDC00 + lo == 64 * (880 + lo / 64) + lo % 64;
  }

  lemma SplitPair(k: nat, lo: nat)
    requires lo < 0x400
    ensures var c := 0x400 * k + lo;
            c / 0x4_0000 == k / 0x100 && c / 0x1000 % 64 == k / 4 % 64 && c / 64 % 64 == k % 4 * 16 + lo / 64
            && c % 64 == lo % 64
  {
    var c := 0x400 * k + lo;
    assert c / 0x400 == k && c / 64 == 16 * k + lo / 64;
    assert c / 0x1000 == k / 4 && c / 0x4_0000 == k / 0x100;
  }
}
