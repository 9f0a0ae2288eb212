/** f_gets: a line of text read from a file. */
module Gets {
  import opened Bytes
  import opened Window
  import opened FileSpec
  import opened FileState
  import opened File
  import opened Utf
  import opened Text
  import opened Strings

  // ---------------------------------------------------------------- what a line is

  /** What reading a character gives: the end, a code that is none, or a character. */
  datatype Got = AtEnd | NoCode | Char(c: scalar)

  /** The character of content c0 at p, and where reading goes on. */
  function CharAt(c0: seq<byte>, p: nat): (r: (Got, nat))
    requires p <= |c0|
    ensures p <= r.1 <= |c0| && (!r.0.AtEnd? ==> p < r.1)
  {
    if p == |c0| then (AtEnd, p)
    else
      var n := CodedLength(c0[p]);
      if p + n > |c0| then (AtEnd, |c0|)
      else
        var v := Coded(c0[p..p + n], 0);
        CodedIsScalar(c0[p..p + n], 0);
        (if v == -1 then NoCode else Char(v), p + n)
  }

  /** The characters from p on while fewer than room bytes are taken, up to a line end; codes that are
      none are left out. */
  function LineAt(c0: seq<byte>, p: nat, room: int): (r: (seq<byte>, nat))
    requires p <= |c0|
    ensures p <= r.1 <= |c0| && (r.0 == [] || |r.0| < room + 4)
    decreases |c0| - p
  {
    if room <= 0 then ([], p)
    else
      var (g, q) := CharAt(c0, p);
      match g
      case AtEnd => ([], q)
      case NoCode => LineAt(c0, q, room)
      case Char(c) =>
        if c == 10 then ([10], q)
        else
          var l := LineAt(c0, q, room - |Utf8(c)|);
          (Utf8(c) + l.0, l.1)
  }

  lemma CharHeld(c0: seq<byte>, p: nat, c: scalar)
    requires IsScalar(c) && Holds(c0, p, Utf8(c))
    ensures CharAt(c0, p) == (Char(c), p + |Utf8(c)|)
  {
    hide Utf8, Coded;
    var u := Utf8(c);
    DecodesEncoded(c0, p, c);
    assert c0[p..p + |u|] == u == u[0..0 + |u|];
    DecodesEncoded(u, 0, c);
  }

  /** cs is a line: it has no line end but at its end. */
  predicate IsLine(cs: seq<scalar>) { forall k :: 0 <= k < |cs| - 1 ==> cs[k] != 10 }

  /** A line that fits is read as it stands, up to its line end, or the end of the file or of the room. */
  lemma {:induction false} LineHeld(c0: seq<byte>, p: nat, cs: seq<scalar>, room: int)
    requires IsLine(cs) && Holds(c0, p, Text8(cs)) && |Text8(cs)| <= room
    requires (cs != [] && cs[|cs| - 1] == 10) || |Text8(cs)| == room || p + |Text8(cs)| == |c0|
    ensures LineAt(c0, p, room) == (Text8(cs), p + |Text8(cs)|)
    decreases |cs|
  {
    hide Utf8, CharAt, Holds;
    if cs == [] {
      AtTheEnd(c0, p);
    } else {
      var c, d := cs[0], cs[1..];
      HeldApart(c0, p, Utf8(c), Text8(d));
      HeldWithin(c0, p, Utf8(c));
      CharHeld(c0, p, c);
      if c == 10 {
        assert d == [];
        OneByte();
        assert Utf8(c) + [] == [10];
      } else {
        forall k | 0 <= k < |d| - 1 ensures d[k] != 10 { assert d[k] == cs[k + 1]; }
        assert d != [] ==> d[|d| - 1] == cs[|cs| - 1];
        LineHeld(c0, p + |Utf8(c)|, d, room - |Utf8(c)|);
      }
    }
  }

  lemma OneByte()
    ensures Utf8(10) == [10]
  {
  }

  lemma AtTheEnd(c0: seq<byte>, p: nat)
    ensures Holds(c0, p, []) ==> p <= |c0|
    ensures p == |c0| ==> CharAt(c0, p) == (AtEnd, p)
  {
  }

  // ---------------------------------------------------------------- reading

  /** Between reads, file fp holds c0, in which the file pointer moves. */
  ghost predicate Reading(fp: Fil, s0: State, c0: seq<byte>)
    reads fp, fp.buf, fp.fs, fp.fs.win, fp.fs.disk
  {
    fp.Usable() && (fp.err == OK ==> fp.fptr <= |c0| && Became(s0, fp.St(), c0).Sound?)
  }

  /** Read n bytes into s; an error shows as too few. */
  method Fetch(fp: Fil, s: array<byte>, n: nat, ghost s0: State, ghost c0: seq<byte>) returns (rc: nat)
    requires Reading(fp, s0, c0) && s.Length == 512 && 0 < n <= 512 && s != fp.buf && s != fp.fs.win
    modifies fp`fptr, fp`clust, fp`sect, fp`dirty, fp`shown, fp`err, fp.buf, s
    modifies fp.fs`wflag, fp.fs`winsect, fp.fs`logical, fp.fs.win, fp.fs.disk
    ensures Reading(fp, s0, c0) && (old(fp.err) == OK && fp.fs.disk.reliable ==> fp.err == OK)
    ensures fp.err == OK ==> old(fp.err) == OK
    ensures fp.err != OK || !fp.mayRead ==> rc < n
    ensures fp.err == OK && fp.mayRead ==>
              rc == (if n < |c0| - old(fp.fptr) then n else |c0| - old(fp.fptr)) && fp.fptr == old(fp.fptr) + rc
              && s[..rc] == c0[old(fp.fptr)..fp.fptr]
  {
    hide Became, Judge, FileBytes, Holding, PutBytes;
    ghost var t := fp.St();
    ghost var ok := fp.err == OK;
    if ok { BecameGives(s0, t, c0); }
    var res;
    res, rc := fp.Read(s, n);
    if res == OK {
      BecameThen(s0, t, c0, fp.St(), c0);
      PutStart(old(s[..]), c0[old(fp.fptr)..fp.fptr]);
      assert s[..rc] == s[..][..rc];
    }
  }

  lemma PutStart(m: seq<byte>, v: seq<byte>)
    requires |v| <= |m|
    ensures PutBytes(m, 0, v)[..|v|] == v
  {
  }

  /** Merge the payloads of ct trailing bytes to those of a leading byte. */
  method Merge(lead: byte, s: array<byte>, ct: nat) returns (rc: nat, dc: nat)
    requires 0 < ct <= 3 && s.Length == 512
    ensures rc == ct <==> Merged([lead] + s[..ct], 1, ct, LeadBits(lead)) != -1
    ensures rc == ct ==> dc == Merged([lead] + s[..ct], 1, ct, LeadBits(lead))
  {
    ghost var b := [lead] + s[..ct];
    rc, dc := 0, LeadBits(lead);
    while rc < ct
      invariant 0 <= rc <= ct && Merged(b, 1 + rc, ct - rc, dc) == Merged(b, 1, ct, LeadBits(lead))
      decreases ct - rc
    {
      assert At(b, 1 + rc) == s[rc];
      if !(0x80 <= s[rc] < 0xC0) { return; }
      dc := dc * 64 + s[rc] as nat % 64;
      rc := rc + 1;
    }
  }

  /** The character at p by its bytes. */
  lemma CharOf(c0: seq<byte>, p: nat)
    requires p <= |c0|
    ensures p == |c0| ==> CharAt(c0, p) == (AtEnd, p)
    ensures p < |c0| && c0[p] < 0x80 ==> CharAt(c0, p) == (Char(c0[p]), p + 1)
    ensures p < |c0| && c0[p] >= 0x80 ==>
              var n := Trailing(c0[p]);
              CharAt(c0, p) ==
              if n == 0 then (NoCode, p + 1)
              else if p + 1 + n > |c0| then (AtEnd, |c0|)
              else
                var v := Merged(c0[p..p + 1 + n], 1, n, LeadBits(c0[p]));
                (if v < 0x80 || IsSurrogate(v) || v >= 0x11_0000 then NoCode else Char(v), p + 1 + n)
  {
    hide Merged;
  }

  /** One character of the file, by way of the array s. */
  method ReadChar(fp: Fil, s: array<byte>, ghost s0: State, ghost c0: seq<byte>) returns (g: Got)
    requires Reading(fp, s0, c0) && s.Length == 512 && s != fp.buf && s != fp.fs.win
    modifies fp`fptr, fp`clust, fp`sect, fp`dirty, fp`shown, fp`err, fp.buf, s
    modifies fp.fs`wflag, fp.fs`winsect, fp.fs`logical, fp.fs.win, fp.fs.disk
    ensures Reading(fp, s0, c0) && (old(fp.err) == OK && fp.fs.disk.reliable ==> fp.err == OK)
    ensures fp.err == OK ==> old(fp.err) == OK
    ensures fp.err != OK || !fp.mayRead ==> g == AtEnd
    ensures fp.err == OK && fp.mayRead ==> (g, fp.fptr) == CharAt(c0, old(fp.fptr))
  {
    hide Became, Utf8, Judge, FileBytes, Merged, Coded, CharAt, Reading, Fil.Usable;
    ReadingSo(fp, s0, c0);
    ghost var p := fp.fptr;
    if p <= |c0| { CharOf(c0, p); }
    var rc := Fetch(fp, s, 1, s0, c0);
    if rc != 1 { return AtEnd; }
    var b := s[0];
    assert b == s[..1][0] == c0[p];
    if b < 0x80 { return Char(b); }
    var ct := Trailing(b);
    if ct == 0 { return NoCode; }
    rc := Fetch(fp, s, ct, s0, c0);
    if rc != ct { return AtEnd; }
    ghost var bs := [b] + s[..ct];
    assert bs == c0[p..p + 1 + ct];
    var dc;
    rc, dc := Merge(b, s, ct);
    if rc != ct || dc < 0x80 || IsSurrogate(dc) || dc >= 0x11_0000 { return NoCode; }
    return Char(dc);
  }

  /** Put a character into the buffer at nc. */
  method Append(buff: array<byte>, nc: nat, dc: scalar) returns (n: nat)
    requires nc + 4 <= buff.Length && IsScalar(dc)
    modifies buff
    ensures n == nc + |Utf8(dc)| && buff[..n] == old(buff[..nc]) + Utf8(dc)
  {
    hide PutBytes;
    if dc < 0x80 {
      Overwrite(buff, nc, [dc]);
      n := nc + 1;
    } else if dc < 0x800 {
      Overwrite(buff, nc, [0xC0 + dc / 0x40 % 0x20, 0x80 + dc % 0x40]);
      n := nc + 2;
    } else if dc < 0x1_0000 {
      Overwrite(buff, nc, [0xE0 + dc / 0x1000 % 0x10, 0x80 + dc / 0x40 % 0x40, 0x80 + dc % 0x40]);
      n := nc + 3;
    } else {
      Overwrite(buff, nc,
          [0xF0 + dc / 0x4_0000 % 8, 0x80 + dc / 0x1000 % 0x40, 0x80 + dc / 0x40 % 0x40, 0x80 + dc % 0x40]);
      n := nc + 4;
    }
    PutAfter(old(buff[..]), nc, Utf8(dc));
    assert buff[..n] == buff[..][..n];
    assert old(buff[..nc]) == old(buff[..])[..nc];
  }

  lemma PutAfter(m: seq<byte>, i: nat, v: seq<byte>)
    requires i + |v| <= |m|
    ensures PutBytes(m, i, v)[..i + |v|] == m[..i] + v
  {
  }

  /** What follows pre, and where it ends. */
  function After(pre: seq<byte>, l: (seq<byte>, nat)): (seq<byte>, nat) { (pre + l.0, l.1) }

  lemma LineStart(c0: seq<byte>, p: nat, room: int)
    requires p <= |c0|
    ensures LineAt(c0, p, room) == After([], LineAt(c0, p, room))
  {
    hide LineAt;
    var l := LineAt(c0, p, room);
    assert [] + l.0 == l.0;
  }

  lemma LineEnd(c0: seq<byte>, p: nat, room: int, pre: seq<byte>)
    requires p <= |c0| && room <= 0
    ensures After(pre, LineAt(c0, p, room)) == (pre, p)
  {
    assert pre + [] == pre;
  }

  /** A line by its first character. */
  lemma LineStep(c0: seq<byte>, p: nat, room: int, pre: seq<byte>)
    requires p <= |c0| && room > 0
    ensures var (g, q) := CharAt(c0, p);
            After(pre, LineAt(c0, p, room)) ==
            match g
            case AtEnd => (pre, q)
            case NoCode => After(pre, LineAt(c0, q, room))
            case Char(c) =>
              if c == 10 then (pre + Utf8(10), q) else After(pre + Utf8(c), LineAt(c0, q, room - |Utf8(c)|))
  {
    hide CharAt;
    var (g, q) := CharAt(c0, p);
    match g
    case AtEnd => assert pre + [] == pre;
    case NoCode =>
    case Char(c) => 
      if c != 10 {
        var l := LineAt(c0, q, room - |Utf8(c)|);
        assert pre + (Utf8(c) + l.0) == pre + Utf8(c) + l.0;
      }
  }

  lemma ReadingStarts(fp: Fil)
    requires fp.Usable()
    ensures Reading(fp, fp.St(), ContentsOf(fp))
    ensures fp.err == OK ==> ContentsOf(fp) == fp.Contents() && fp.fptr <= |ContentsOf(fp)|
  {
    hide Became, Judge, FileBytes;
    if fp.err == OK {
      BecameNothing(fp.St());
      Limits(fp.St());
    }
  }

  lemma ReadingSo(fp: Fil, s0: State, c0: seq<byte>)
    requires Reading(fp, s0, c0)
    ensures fp.Usable() && (fp.err == OK ==> fp.fptr <= |c0| && Became(s0, fp.St(), c0).Sound?)
  {
    hide Became, Judge, FileBytes;
  }

  /** f_gets: a line of the file as a string in buff of len bytes; none when nothing was read. */
  method Gets(buff: array<byte>, len: int, fp: Fil) returns (none: bool, ghost nc: nat)
    requires fp.Usable() && 1 <= buff.Length && len <= buff.Length && buff != fp.buf && buff != fp.fs.win
    modifies buff, fp`fptr, fp`clust, fp`sect, fp`dirty, fp`shown, fp`err, fp.buf
    modifies fp.fs`wflag, fp.fs`winsect, fp.fs`logical, fp.fs.win, fp.fs.disk
    ensures fp.Usable() && (old(fp.err) == OK && fp.fs.disk.reliable ==> fp.err == OK)
    ensures nc < buff.Length && buff[nc] == 0 && (none <==> nc == 0)
    ensures fp.err == OK ==> old(fp.err) == OK && Became(old(fp.St()), fp.St(), old(fp.Contents())).Sound?
    ensures fp.err == OK && fp.mayRead ==>
              old(fp.fptr) <= |old(fp.Contents())|
              && (buff[..nc], fp.fptr) == LineAt(old(fp.Contents()), old(fp.fptr), len - 4)
  {
    hide Became, Judge, FileBytes, Utf8, CharAt, LineAt, Holding, Reading, Fil.Usable;
    ghost var s0, c0 := fp.St(), ContentsOf(fp);
    ReadingStarts(fp);
    var n: nat := 0;
    var s := new byte[512](i => 0);
    var room := len - 4;
    var more := true;
    ghost var p0 := fp.fptr;
    assert buff[..n] == [];
    if fp.err == OK { LineStart(c0, p0, room); }
    while more && n < room
      invariant n == 0 || n < room + 4
      invariant Reading(fp, s0, c0) && (fp.err == OK ==> old(fp.err) == OK)
      invariant old(fp.err) == OK && fp.fs.disk.reliable ==> fp.err == OK
      invariant fp.err != OK || !fp.mayRead ==> n == 0 || !more
      invariant fp.err == OK && fp.mayRead ==>
                  p0 <= |c0| && fp.fptr <= |c0|
                  && LineAt(c0, p0, room)
                     == if more then After(buff[..n], LineAt(c0, fp.fptr, room - n)) else (buff[..n], fp.fptr)
      decreases more, if fp.err == OK && fp.fptr <= |c0| then |c0| - fp.fptr else 0
    {
      ghost var p, pre := fp.fptr, buff[..n];
      var g := ReadChar(fp, s, s0, c0);
      if fp.err == OK && fp.mayRead { LineStep(c0, p, room - n, pre); }
      match g
      case AtEnd => more := false;
      case NoCode =>
      case Char(dc) =>
        n := Append(buff, n, dc);
        if dc == 10 { more := false; }
    }
    if more && fp.err == OK && fp.mayRead { LineEnd(c0, fp.fptr, room - n, buff[..n]); }
    buff[n] := 0;
    ReadingSo(fp, s0, c0);
    nc, none := n, n == 0;
  }

  lemma SpliceHolds(c: seq<byte>, p: nat, d: seq<byte>)
    requires p <= |c|
    ensures Holds(Splice(c, p, d), p, d)
  {
    assert Splice(c, p, d)[p..p + |d|] == d;
  }

  lemma {:induction false} TextWhole(s: seq<byte>)
    requires 0 !in s
    ensures CText(s) == s
  {
    if s != [] {
      assert s[0] in s && forall k :: 0 <= k < |s| - 1 ==> s[1..][k] == s[k + 1];
      TextWhole(s[1..]);
    }
  }

  /** A line put with f_puts, and read back with f_gets from where it was put: it ends in a line end, or
      fills the room, or is the end of the file. */
  method PutAndGet(cs: seq<scalar>, fp: Fil, buff: array<byte>, len: int) returns (ok: bool, ghost nc: nat)
    requires fp.Valid() && fp.err == OK && fp.mayRead && buff != fp.buf && buff != fp.fs.win
    requires IsLine(cs) && 0 !in Text8(cs) && |Text8(cs)| <= len - 4 <= buff.Length - 4
    requires (cs != [] && cs[|cs| - 1] == 10) || |Text8(cs)| == len - 4 || fp.fptr + |Text8(cs)| >= fp.objsize
    modifies buff, fp`chain, fp`sclust, fp`clust, fp`sect, fp`dirty, fp`fptr, fp`objsize, fp`shown, fp`err
    modifies fp`modified, fp.buf
    modifies fp.fs`wflag, fp.fs`winsect, fp.fs`logical, fp.fs`fat, fp.fs`freeClst, fp.fs`lastClst, fp.fs`infoDue
    modifies fp.fs.win, fp.fs.disk
    ensures ok ==> nc < buff.Length && buff[..nc] == Text8(cs) && buff[nc] == 0
    ensures fp.fs.disk.reliable && !ok ==> !fp.mayWrite || fp.Full() || fp.fptr == DWORD_MAX
  {
    hide Fatfs.Valid, Fatfs.Consistent;
    hide Became, Judge, FileBytes, Covers, SectorCount, Splice, Text8, Out, LineAt, Holding, IsLine, Holds, CText;
    ok, nc := false, 0;
    ghost var s0, c0 := fp.St(), fp.Contents();
    var at, text := fp.fptr, Text8(cs);
    OutText(cs);
    TextWhole(text);
    Limits(s0);
    SpliceHolds(c0, at, text);
    var r := Puts(text, fp);
    if r < 0 { return; }
    ghost var c := Splice(c0, at, text);
    BecameGives(s0, fp.St(), c);
    var res := fp.Lseek(at);
    if res != OK { return; }
    SeekBack(fp);
    ok := true;
    assert fp.Contents() == c;
    LineHeld(c, at, cs, len - 4);
    var none;
    none, nc := Gets(buff, len, fp);
    if fp.err != OK { ok := false; }
  }

  /** A file is within its clusters. */
  lemma SeekBack(fp: Fil)
    requires fp.Valid()
    ensures fp.fptr < fp.objsize ==> !fp.Full()
  {
    Limits(fp.St());
  }
}
