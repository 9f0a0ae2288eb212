/** get_fileinfo: the name of an object as text. */
module FileInfo {
  import opened Bytes
  import opened Utf
  import opened Text
  import opened Lfn
  import opened Names

  const LFN_BUF: nat := 255
  const SFN_BUF: nat := 12

  // ---------------------------------------------------------------- from a long name

  /** Character k of a text starts after the units and bytes of those before. */
  lemma CharPlace(cs: seq<scalar>, k: nat)
    requires k < |cs|
    ensures var p, q := |Text16(cs[..k])|, |Text16(cs)|;
            p + |Utf16(cs[k])| <= q && Text16(cs)[p..p + |Utf16(cs[k])|] == Utf16(cs[k])
            && |Text16(cs[..k + 1])| == p + |Utf16(cs[k])|
    ensures Text8(cs[..k + 1]) == Text8(cs[..k]) + Utf8(cs[k]) && |Text8(cs[..k + 1])| <= |Text8(cs)|
  {
    hide Utf16, Utf8, Text16, Text8;
    var c := cs[k];
    assert cs == (cs[..k] + [c]) + cs[k + 1..] && cs[..k + 1] == cs[..k] + [c];
    Text16Append(cs[..k] + [c], cs[k + 1..]);
    Text16Append(cs[..k], [c]);
    Text8Append(cs[..k] + [c], cs[k + 1..]);
    Text8Append(cs[..k], [c]);
    TextOne(c);
  }

  lemma CharUnits(c: scalar)
    requires IsScalar(c)
    ensures c < 0x1_0000 ==> Utf16(c) == [c] && !IsSurrogate(c) && Packed(c) == c
    ensures c >= 0x1_0000 ==>
              |Utf16(c)| == 2 && IsSurrogateH(Utf16(c)[0])
              && Utf16(c)[0] as nat * 0x1_0000 + Utf16(c)[1] as nat == Packed(c)
    ensures IsPacked(Packed(c)) && Unpacked(Packed(c)) == c
  {
    PackedIsPacked(c);
  }

  /** After k characters and si units of the text; hs is the first half of a pair, or 0. */
  ghost predicate Within(cs: seq<scalar>, k: nat, si: nat, hs: nat) {
    k <= |cs| && if hs == 0 then si == |Text16(cs[..k])|
                 else k < |cs| && cs[k] >= 0x1_0000 && hs == Utf16(cs[k])[0] as nat && si == |Text16(cs[..k])| + 1
  }

  /** The next unit is the next character, or the first or second half of it. */
  lemma NextUnit(cs: seq<scalar>, k: nat, si: nat, hs: nat)
    requires Within(cs, k, si, hs) && si < |Text16(cs)|
    ensures k < |cs|
    ensures var wc, c := Text16(cs)[si] as nat, cs[k];
            if hs == 0 && IsSurrogate(wc) then Within(cs, k, si + 1, wc)
            else hs * 0x1_0000 + wc == Packed(c) && Within(cs, k + 1, si + 1, 0)
  {
    hide Text16, Text8;
    assert cs[..|cs|] == cs;
    var c: scalar := cs[k];
    CharPlace(cs, k);
    CharUnits(c);
    var p := |Text16(cs[..k])|;
    assert Text16(cs)[si] == Text16(cs)[p..p + |Utf16(c)|][si - p];
  }

  /** At the end of the text all characters are taken. */
  lemma AllUnits(cs: seq<scalar>, k: nat, hs: nat)
    requires Within(cs, k, |Text16(cs)|, hs)
    ensures hs == 0 && k == |cs| && cs[..k] == cs
  {
    hide Text16, Text8;
    if k < |cs| {
      CharPlace(cs, k);
      CharUnits(cs[k]);
    }
  }

  lemma NextChar(cs: seq<scalar>, k: nat)
    requires k < |cs|
    ensures IsPacked(Packed(cs[k])) && Unpacked(Packed(cs[k])) == cs[k]
    ensures |Text8(cs[..k])| + |Utf8(cs[k])| <= |Text8(cs)|
  {
    CharPlace(cs, k);
    CharUnits(cs[k]);
  }

  lemma Written(was: seq<byte>, now: seq<byte>, di: nat, cs: seq<scalar>, k: nat)
    requires k < |cs| && di + |Utf8(cs[k])| <= |was| && was[..di] == Text8(cs[..k])
    requires now == PutBytes(was, di, Utf8(cs[k]))
    ensures now[..di + |Utf8(cs[k])|] == Text8(cs[..k + 1])
  {
    hide Text16, Text8, Utf8;
    CharPlace(cs, k);
    assert now[..di + |Utf8(cs[k])|] == was[..di] + Utf8(cs[k]);
  }

  lemma NoChars(cs: seq<scalar>)
    ensures Within(cs, 0, 0, 0) && Text8(cs[..0]) == []
  {
  }

  /** The long name in the buffer in UTF-8; nothing when it does not fit or is no proper text. */
  method LongFname(lfn: array<unit>, ghost n: seq<unit>, ghost cs: seq<scalar>, fname: array<byte>)
    returns (di: nat, ghost done: seq<scalar>)
    requires lfn.Length == 256 && HasName(lfn[..], n) && fname.Length == 256
    modifies fname
    ensures di <= LFN_BUF && fname[di] == 0
    ensures di > 0 ==> n == Text16(done) && fname[..di] == Text8(done)
    ensures n == Text16(cs) ==> if |Text8(cs)| <= LFN_BUF then fname[..di] == Text8(cs) else di == 0
  {
    hide Text16, Text8, Within, Utf16, Utf8, Packed, HasName, PutBytes, Taken16;
    NamesShort(lfn[..], n);
    NameUnits(lfn[..], n);
    assert forall j :: 0 <= j <= |n| ==> lfn[j] == NameAt(n, j) && (lfn[j] == 0 <==> j == |n|);
    NoChars(cs);
    NothingTaken(n);
    var si: nat, hs: nat := 0, 0;
    di, done := 0, [];
    ghost var k, b, over := 0, lfn[..], false;
    while lfn[si] != 0
      invariant !over && lfn[..] == b && 0 <= si <= |n| && di <= LFN_BUF && hs < 0x1_0000
      invariant n == Text16(cs) ==> Within(cs, k, si, hs) && k <= |cs| && fname[..di] == Text8(cs[..k])
      invariant Taken16(n, si, done, hs) && fname[..di] == Text8(done)
      decreases |n| - si
    {
      if n == Text16(cs) { NextUnit(cs, k, si, hs); }
      TakeUnit(n, si, done, hs);
      var wc: nat := lfn[si];
      si := si + 1;
      if hs == 0 && IsSurrogate(wc) {
        hs := wc;
      } else {
        if n == Text16(cs) { NextChar(cs, k); }
        ghost var was := fname[..];
        var nw := PutUtf(hs * 0x1_0000 + wc, fname, di, LFN_BUF - di);
        if nw == 0 {
          di, over := 0, true;
          break;
        }
        if n == Text16(cs) { Written(was, fname[..], di, cs, k); }
        ghost var c: scalar := Unpacked(hs * 0x1_0000 + wc);
        WrittenOn(was, fname[..], di, done, c);
        done := done + [c];
        di, k := di + nw, k + 1;
        hs := 0;
      }
    }
    if n == Text16(cs) && !over { AllUnits(cs, k, hs); }
    AllTaken(n, done);
    if hs != 0 { di := 0; }
    fname[di] := 0;
  }

  /** The first si units are those of the characters done, and hs when that is not 0. */
  ghost predicate Taken16(n: seq<unit>, si: nat, done: seq<scalar>, hs: nat) {
    si <= |n| && hs < 0x1_0000 && n[..si] == Text16(done) + if hs == 0 then [] else [hs]
  }

  lemma NothingTaken(n: seq<unit>)
    ensures Taken16(n, 0, [], 0) && Text8([]) == []
  {
  }

  lemma AllTaken(n: seq<unit>, done: seq<scalar>)
    ensures Taken16(n, |n|, done, 0) ==> n == Text16(done)
  {
    assert n[..|n|] == n;
  }

  /** One more unit: the first half of a pair, or a character. */
  lemma TakeUnit(n: seq<unit>, si: nat, done: seq<scalar>, hs: nat)
    requires Taken16(n, si, done, hs) && si < |n|
    ensures hs == 0 && IsSurrogate(n[si]) ==> Taken16(n, si + 1, done, n[si])
    ensures var p := hs * 0x1_0000 + n[si];
            (hs != 0 || !IsSurrogate(n[si])) && IsPacked(p) ==> Taken16(n, si + 1, done + [Unpacked(p)], 0)
  {
    hide Text16, Packed, IsPacked, Unpacked, Utf16;
    assert n[..si + 1] == n[..si] + [n[si]];
    var t, u, p := Text16(done), n[si], hs * 0x1_0000 + n[si];
    if hs == 0 { assert t + [] == t; }
    if (hs != 0 || !IsSurrogate(u)) && IsPacked(p) {
      var c: scalar := Unpacked(p);
      Text16Append(done, [c]);
      TextOne(c);
      UnitsOf(hs, u);
      assert Text16(done + [c]) + [] == t + Utf16(c);
      assert hs != 0 ==> t + [hs] + [u] == t + [hs, u];
    }
  }

  lemma UnitsOf(hs: nat, u: unit)
    requires hs < 0x1_0000 && (hs != 0 || !IsSurrogate(u)) && IsPacked(hs * 0x1_0000 + u)
    ensures Utf16(Unpacked(hs * 0x1_0000 + u)) == if hs == 0 then [u] else [hs, u]
  {
  }

  lemma WrittenOn(was: seq<byte>, now: seq<byte>, di: nat, done: seq<scalar>, c: scalar)
    requires IsScalar(c) && di + |Utf8(c)| <= |was| && was[..di] == Text8(done) && now == PutBytes(was, di, Utf8(c))
    ensures now[..di + |Utf8(c)|] == Text8(done + [c])
  {
    hide Utf8;
    Text8Append(done, [c]);
    TextOne(c);
    assert now[..di + |Utf8(c)|] == was[..di] + Utf8(c);
  }

  // ---------------------------------------------------------------- from a short name

  predicate IsLead(c: nat) { 0x81 <= c <= 0x9F || 0xE0 <= c <= 0xFC }
  predicate IsSecond(c: nat) { 0x40 <= c <= 0x7E || 0x80 <= c <= 0xFC }

  /** A short name of ASCII characters, in a code page that has them. */
  ghost predicate IsAscii(fromOem: unit -> unit, f: seq<byte>) {
    |f| == 11 && (forall k :: 0 <= k < 11 ==> 32 <= f[k] < 0x80) && forall c: unit :: c < 0x80 ==> fromOem(c) == c
  }

  lemma {:induction false} BlanksOn(f: seq<byte>, g: seq<byte>)
    ensures WithoutBlanks(f + g) == WithoutBlanks(f) + WithoutBlanks(g) && |WithoutBlanks(f)| <= |f|
  {
    if f == [] {
      assert f + g == g;
    } else {
      assert (f + g)[1..] == f[1..] + g;
      BlanksOn(f[1..], g);
    }
  }

  /** The first si bytes of a short name as text. */
  function DottedTo(f: seq<byte>, si: nat): seq<byte>
    requires si <= 11 == |f|
  {
    if si <= 8 then WithoutBlanks(f[..si])
        else WithoutBlanks(f[..8]) + (if f[8] != 32 then [46] else []) + WithoutBlanks(f[8..si])
  }

  lemma DottedOn(f: seq<byte>, si: nat)
    requires si < 11 == |f|
    ensures DottedTo(f, si + 1)
         == DottedTo(f, si) + (if f[si] == 32 then [] else if si == 8 then [46, f[si]] else [f[si]])
    ensures |DottedTo(f, si)| <= if si <= 8 then si else si + 1
    ensures DottedTo(f, 0) == [] && DottedTo(f, 11) == Dotted(f)
  {
    var x := [f[si]];
    assert x[1..] == [];
    BlanksOn(f[..8], []);
    if si < 8 {
      assert f[..si + 1] == f[..si] + x;
      BlanksOn(f[..si], x);
    } else {
      assert f[8..si + 1] == f[8..si] + x;
      BlanksOn(f[8..si], x);
    }
  }

  /** The short name of an entry in UTF-8; nothing when it has no proper text. */
  method ShortFname(fromOem: unit -> unit, dir: array<byte>, o: nat, altname: array<byte>) returns (di: nat)
    requires o + 32 <= dir.Length && altname.Length == 13 && altname != dir
    modifies altname
    ensures di <= SFN_BUF && altname[di] == 0
    ensures IsAscii(fromOem, dir[o..o + 11]) ==> altname[..di] == Dotted(dir[o..o + 11])
  {
    hide Dotted, DottedTo, PutBytes;
    ghost var f, ascii := dir[o..o + 11], IsAscii(fromOem, dir[o..o + 11]);
    var si: nat := 0;
    di := 0;
    DottedOn(f, 0);
    while si < 11
      invariant 0 <= si <= 11 && di <= SFN_BUF && dir[o..o + 11] == f
      invariant ascii ==> altname[..di] == DottedTo(f, si)
    {
      DottedOn(f, si);
      var wc: unit := dir[o + si];
      si := si + 1;
      if wc != 32 {
        if wc == 5 { wc := 0xE5; }
        if si == 9 && di < SFN_BUF { altname[di] := 46; di := di + 1; }
        if IsLead(wc) && si != 8 && si != 11 && IsSecond(dir[o + si]) {
          wc := wc % 0x100 * 0x100 + dir[o + si];
          si := si + 1;
        }
        wc := fromOem(wc);
        if wc == 0 { di := 0; break; }
        ghost var was := altname[..];
        var nw := PutUtf(wc, altname, di, SFN_BUF - di);
        if nw == 0 { di := 0; break; }
        if ascii { AsciiPut(was, altname[..], di, wc); }
        di := di + nw;
      }
    }
    altname[di] := 0;
  }

  lemma AsciiPut(was: seq<byte>, now: seq<byte>, di: nat, c: unit)
    requires c < 0x80 && di < |was| && now == PutBytes(was, di, Utf8(c))
    ensures now[..di + 1] == was[..di] + [c]
  {
  }

  // ---------------------------------------------------------------- get_fileinfo

  lemma CasedOn(a: seq<byte>, k: nat, small: bool, smallExt: bool)
    requires k < |a|
    ensures var s := if a[k] == 46 then smallExt else small;
            Cased(a[k..], small, smallExt)
            == [if IsUpperLetter(a[k]) && s then a[k] + 32 else a[k]] + Cased(a[k + 1..], s, smallExt)
  {
    assert a[k..][1..] == a[k + 1..];
  }

  lemma {:induction false} CasedLength(a: seq<byte>, small: bool, smallExt: bool)
    ensures |Cased(a, small, smallExt)| == |a|
  {
    if a != [] { CasedLength(a[1..], if a[0] == 46 then smallExt else small, smallExt); }
  }

  /** Copy the text of a short name with small letters as its flags say. */
  method CopyCased(altname: array<byte>, len: nat, nt: nat, fname: array<byte>) returns (di: nat)
    requires altname.Length == 13 && fname.Length == 256 && altname != fname && len <= SFN_BUF && altname[len] == 0
    requires nt < 256
    modifies fname
    ensures di <= len && fname[di] == 0
    ensures (forall k :: 0 <= k < len ==> altname[k] != 0) ==>
              di == len && fname[..di] == Cased(altname[..len], nt / 8 % 2 == 1, nt / 16 % 2 == 1)
  {
    hide Cased;
    ghost var a, s0, x := altname[..len], nt / 8 % 2 == 1, nt / 16 % 2 == 1;
    di := 0;
    var small := nt / 8 % 2 == 1;
    assert a[0..] == a;
    while altname[di] != 0
      invariant 0 <= di <= len && altname[..len] == a && altname[len] == 0
      invariant Cased(a, s0, x) == fname[..di] + Cased(a[di..], small, x)
      decreases len - di
    {
      var wc: nat := altname[di];
      CasedOn(a, di, small, x);
      if wc == 46 { small := nt / 16 % 2 == 1; }
      if IsUpperLetter(wc) && small { wc := wc + 0x20; }
      ghost var was := fname[..di];
      fname[di] := wc;
      assert fname[..di + 1] == was + [fname[di]];
      di := di + 1;
    }
    if di == len { NoneCased(small, x); assert a[len..] == []; }
    ghost var r := fname[..di];
    fname[di] := 0;
    assert fname[..di] == r;
  }

  lemma NoneCased(small: bool, smallExt: bool)
    ensures Cased([], small, smallExt) == []
  {
  }

  /** get_fileinfo: the name of the object whose entry is at offset o of dir, and whose long name, if it
      has one, is in the buffer. */
  method GetFileInfo(fromOem: unit -> unit, lfn: array<unit>, ghost n: seq<unit>, ghost cs: seq<scalar>, long: bool,
                     dir: array<byte>, o: nat, fname: array<byte>, altname: array<byte>) returns (ghost len: nat)
    requires lfn.Length == 256 && (long ==> HasName(lfn[..], n)) && o + 32 <= dir.Length && fname.Length == 256
    requires altname.Length == 13
    requires altname != dir && fname != dir && altname != fname
    modifies fname, altname
    ensures len <= LFN_BUF && fname[len] == 0
    ensures long && n == Text16(cs) && cs != [] && |Text8(cs)| <= LFN_BUF ==> fname[..len] == Text8(cs)
    ensures !long && IsAscii(fromOem, dir[o..o + 11]) && Dotted(dir[o..o + 11]) != [] ==>
              fname[..len] == Restored(dir[o..o + 11], dir[o + 12] as nat)
    ensures !long && dir[o + 12] == 0 ==> altname[0] == 0
    ensures IsAscii(fromOem, dir[o..o + 11])
              && (dir[o + 12] != 0 || (long && n == Text16(cs) && cs != [] && |Text8(cs)| <= LFN_BUF)) ==>
              var a := Dotted(dir[o..o + 11]);
              |a| <= SFN_BUF && altname[..|a|] == a && altname[|a|] == 0
  {
    hide Text16, Text8, Dotted, Cased, WithoutBlanks;
    ghost var f := dir[o..o + 11];
    len := 0;
    fname[0] := 0;
    if long {
      ghost var done;
      var d;
      d, done := LongFname(lfn, n, cs, fname);
      len := d;
      if n == Text16(cs) && cs != [] { TextStarts(cs, n); }
    }
    assert dir[o..o + 11] == f;
    var di := ShortFname(fromOem, dir, o, altname);
    ghost var alt := altname[..di];
    if fname[0] == 0 {
      if di == 0 {
        fname[0] := 63;
        fname[1] := 0;
        len := 1;
      } else {
        if IsAscii(fromOem, f) { DottedNonzero(fromOem, f); }
        assert forall k :: 0 <= k < di ==> altname[k] == altname[..di][k];
        var d := CopyCased(altname, di, dir[o + 12], fname);
        len := d;
      }
      assert altname[..di] == alt;
      if dir[o + 12] == 0 { altname[0] := 0; }
    }
  }

  /** The first byte of a text without zero units is not zero. */
  lemma TextStarts(cs: seq<scalar>, n: seq<unit>)
    requires cs != [] && n == Text16(cs)
    ensures 0 !in n ==> Text8(cs) != [] && Text8(cs)[0] != 0
  {
    if cs[0] == 0 { assert n[0] == 0; }
  }

  lemma DottedNonzero(fromOem: unit -> unit, f: seq<byte>)
    requires IsAscii(fromOem, f)
    ensures 0 !in Dotted(f)
  {
    BlanksNonzero(f[..8]);
    BlanksNonzero(f[8..11]);
  }

  lemma {:induction false} BlanksNonzero(f: seq<byte>)
    requires 0 !in f
    ensures 0 !in WithoutBlanks(f)
  {
    if f != [] { BlanksNonzero(f[1..]); }
  }
}
