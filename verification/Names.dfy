/** Names of directory entries: from a path segment to a long and a short name, and back. */
module Names {
  import opened Bytes
  import opened Utf
  import opened Text
  import opened Lfn
  import opened Window

  // Name status flags.
  const NS_LOSS: nat := 0x01     // the short name does not stand for the whole name
  const NS_LFN: nat := 0x02      // entries for the long name are needed
  const NS_LAST: nat := 0x04     // last segment of the path
  const NS_BODY: nat := 0x08     // body in small letters
  const NS_EXT: nat := 0x10      // extension in small letters

  predicate IsUpperLetter(c: nat) { 65 <= c <= 90 }
  predicate IsLowerLetter(c: nat) { 97 <= c <= 122 }

  /** + , ; = [ ] */
  predicate NoShort(c: nat) { c == 43 || c == 44 || c == 59 || c == 61 || c == 91 || c == 93 }

  function Capital(c: nat): nat { if IsLowerLetter(c) then c - 32 else c }

  // ---------------------------------------------------------------- short names back to text

  predicate NotBlank(c: nat) { c != 32 }

  function WithoutBlanks(f: seq<byte>): (r: seq<byte>) {
    if f == [] then [] else (if NotBlank(f[0]) then [f[0]] else []) + WithoutBlanks(f[1..])
  }

  /** A short name as text: the body, and after a dot the extension. */
  function Dotted(fn: seq<byte>): seq<byte>
    requires |fn| >= 11
  {
    WithoutBlanks(fn[..8]) + (if fn[8] != 32 then [46] else []) + WithoutBlanks(fn[8..11])
  }

  /** Capital letters made small by the flags, one for the body and one for the extension. */
  function Cased(a: seq<byte>, small: bool, smallExt: bool): seq<byte> {
    if a == [] then []
    else
      var s := if a[0] == 46 then smallExt else small;
      [if IsUpperLetter(a[0]) && s then a[0] + 32 else a[0]] + Cased(a[1..], s, smallExt)
  }

  /** The name that a short name without a long one stands for. */
  function Restored(fn: seq<byte>, nt: nat): seq<byte>
    requires |fn| >= 11
  {
    Cased(Dotted(fn), nt / 8 % 2 == 1, nt / 16 % 2 == 1)
  }

  // ---------------------------------------------------------------- names in 8.3 form

  /** A character a short name takes over, up to case. */
  predicate IsPlain(c: nat) { 32 < c < 0x80 && c != 46 && !NoShort(c) }

  /** Field f of a short name holds the characters u, capital, and then blanks. */
  ghost predicate Holding(f: seq<byte>, u: seq<unit>) {
    |u| <= |f| && (forall k :: 0 <= k < |u| ==> IsPlain(u[k]) && f[k] as nat == Capital(u[k]))
    && forall k :: |u| <= k < |f| ==> f[k] == 32
  }

  /** Which cases of letters occur. */
  predicate HasUpper(u: seq<unit>) { exists k :: 0 <= k < |u| && IsUpperLetter(u[k]) }
  predicate HasLower(u: seq<unit>) { exists k :: 0 <= k < |u| && IsLowerLetter(u[k]) }

  function CaseBits(u: seq<unit>): (b: nat)
    ensures b < 4
  {
    (if HasUpper(u) then 2 else 0) + (if HasLower(u) then 1 else 0)
  }

  lemma CaseBitsOn(u: seq<unit>, c: unit)
    ensures HasUpper(u + [c]) <==> HasUpper(u) || IsUpperLetter(c)
    ensures HasLower(u + [c]) <==> HasLower(u) || IsLowerLetter(c)
  {
    if k :| 0 <= k < |u| && IsUpperLetter(u[k]) { assert (u + [c])[k] == u[k]; }
    if k :| 0 <= k < |u| && IsLowerLetter(u[k]) { assert (u + [c])[k] == u[k]; }
    assert (u + [c])[|u|] == c;
  }

  /** A name in 8.3 form with its short name and flags: body, and with a dot an extension. */
  ghost predicate Is83(n: seq<unit>, body: seq<unit>, ext: seq<unit>, fn: seq<byte>, nt: nat) {
    && |fn| >= 11 && n == (if ext == [] then body else body + [46] + ext)
    && body != [] && Holding(fn[..8], body) && Holding(fn[8..11], ext)
    && !(HasUpper(body) && HasLower(body)) && !(HasUpper(ext) && HasLower(ext))
    && (nt / 8 % 2 == 1 <==> HasLower(body)) && (nt / 16 % 2 == 1 <==> HasLower(ext))
  }

  predicate AllPlain(u: seq<unit>) { forall k :: 0 <= k < |u| ==> IsPlain(u[k]) }

  /** A body or an extension that a field of k bytes can hold, letters of one case. */
  predicate FitsField(u: seq<unit>, k: nat) { |u| <= k && AllPlain(u) && !(HasUpper(u) && HasLower(u)) }

  predicate ShortBy(n: seq<unit>, body: seq<unit>, ext: seq<unit>) {
    n == (if ext == [] then body else body + [46] + ext) && body != [] && FitsField(body, 8) && FitsField(ext, 3)
  }

  /** A name in 8.3 form: no long name is called for. */
  ghost predicate InShort(n: seq<unit>) { exists body, ext :: ShortBy(n, body, ext) }

  lemma {:induction false} HeldField(f: seq<byte>, u: seq<unit>)
    requires Holding(f, u)
    ensures |WithoutBlanks(f)| == |u| && forall k :: 0 <= k < |u| ==> WithoutBlanks(f)[k] as nat == Capital(u[k])
    decreases |f|
  {
    if f != [] {
      if u == [] {
        HeldField(f[1..], u);
      } else {
        HeldField(f[1..], u[1..]);
        var w, r := WithoutBlanks(f), WithoutBlanks(f[1..]);
        assert w == [f[0]] + r;
        forall k | 0 <= k < |u|
        ensures w[k] as nat == Capital(u[k]) { if k > 0 { assert w[k] == r[k - 1] && u[k] == u[1..][k - 1]; } }
      }
    }
  }

  /** Capital letters of one field made small again, when they were. */
  lemma {:induction false} CasedField(a: seq<byte>, u: seq<unit>, small: bool, smallExt: bool, rest: seq<byte>)
    requires |a| == |u| && forall k :: 0 <= k < |u| ==> IsPlain(u[k]) && a[k] as nat == Capital(u[k])
    requires forall k :: 0 <= k < |u| ==> (small ==> !IsUpperLetter(u[k])) && (!small ==> !IsLowerLetter(u[k]))
    ensures Cased(a + rest, small, smallExt) == u + Cased(rest, small, smallExt)
    decreases |a|
  {
    if a == [] {
      assert a + rest == rest && u + Cased(rest, small, smallExt) == Cased(rest, small, smallExt);
    } else {
      assert (a + rest)[1..] == a[1..] + rest;
      CasedField(a[1..], u[1..], small, smallExt, rest);
      assert u == [u[0]] + u[1..];
    }
  }

  lemma CasesApply(u: seq<unit>, small: bool)
    requires !(HasUpper(u) && HasLower(u)) && small == HasLower(u)
    ensures forall k :: 0 <= k < |u| ==> (small ==> !IsUpperLetter(u[k])) && (!small ==> !IsLowerLetter(u[k]))
  {
    forall k | 0 <= k < |u| ensures (small ==> !IsUpperLetter(u[k])) && (!small ==> !IsLowerLetter(u[k])) {
      if IsUpperLetter(u[k]) { assert HasUpper(u); }
      if IsLowerLetter(u[k]) { assert HasLower(u); }
    }
  }

  lemma CasedDot(e: seq<byte>, small: bool, smallExt: bool)
    ensures Cased([46] + e, small, smallExt) == [46] + Cased(e, smallExt, smallExt) && Cased([], small, smallExt) == []
  {
    assert ([46] + e)[1..] == e;
  }

  /** A name in 8.3 form is restored from its short name and flags. */
  lemma Restores(n: seq<unit>, body: seq<unit>, ext: seq<unit>, fn: seq<byte>, nt: nat)
    requires Is83(n, body, ext, fn, nt)
    ensures Restored(fn, nt) == n
  {
    hide HasUpper, HasLower, Cased, WithoutBlanks;
    CasedDot(WithoutBlanks(fn[8..11]), nt / 8 % 2 == 1, nt / 16 % 2 == 1);
    CasedDot([], nt / 16 % 2 == 1, nt / 16 % 2 == 1);
    var s, x := nt / 8 % 2 == 1, nt / 16 % 2 == 1;
    var a, e := WithoutBlanks(fn[..8]), WithoutBlanks(fn[8..11]);
    HeldField(fn[..8], body);
    HeldField(fn[8..11], ext);
    CasesApply(body, s);
    CasesApply(ext, x);
    if ext == [] {
      assert fn[8..11][0] == 32;
      assert Dotted(fn) == a + [];
      CasedField(a, body, s, x, []);
    } else {
      assert fn[8..11][0] as nat == Capital(ext[0]) && IsPlain(ext[0]);
      assert Dotted(fn) == a + ([46] + e);
      CasedField(a, body, s, x, [46] + e);
      assert e + [] == e;
      CasedField(e, ext, x, x, []);
    }
  }

  // ---------------------------------------------------------------- create_name: the long name

  /** Characters read so far, and what is still to come. */
  function Whole(cs: seq<scalar>, g: Segment): Segment {
    match g case Bad => Bad case Chars(ds) => Chars(cs + ds)
  }

  lemma OneRead(s: seq<byte>, p: nat, cs: seq<scalar>)
    requires Coded(s, p) != -1 && !Stops(Coded(s, p)) && !IsIllegal(Coded(s, p))
    ensures IsScalar(Coded(s, p)) && p < |s| && p + CodedLength(At(s, p)) <= |s|
    ensures var c: scalar := Coded(s, p);
            Whole(cs, SegmentAt(s, p)) == Whole(cs + [c], SegmentAt(s, p + CodedLength(At(s, p))))
            && Text16(cs + [c]) == Text16(cs) + Utf16(c)
  {
    CodedIsScalar(s, p);
    EncodesDecoded(s, p);
    var c: scalar := Coded(s, p);
    TextOne(c);
    Text16Append(cs, [c]);
    var g := SegmentAt(s, p + CodedLength(At(s, p)));
    if g.Chars? { assert cs + ([c] + g.cs) == (cs + [c]) + g.cs; }
  }

  /** Units of a whole segment, when it is one. */
  predicate Fits(g: Segment) { g.Chars? && |Text16(g.cs)| <= MAX_LFN }

  lemma TooLong(cs: seq<scalar>, g: Segment)
    requires |Text16(cs)| > MAX_LFN
    ensures !Fits(Whole(cs, g))
  {
    if g.Chars? { Text16Append(cs, g.cs); }
  }

  /** What the code tests of a character by its last unit. */
  lemma LastUnit(s: seq<byte>, p: nat)
    requires Coded(s, p) != -1
    ensures var c := Coded(s, p); IsScalar(c) && var uc := Packed(c); var wc := uc % 0x1_0000;
            uc != NO_CHAR && (Stops(wc) <==> Stops(c)) && (wc < 0x80 && IsIllegal(wc) <==> IsIllegal(c))
            && Utf16(c) == if uc >= 0x1_0000 then [uc / 0x1_0000, wc] else [wc]
  {
    CodedIsScalar(s, p);
    PackedIsPacked(Coded(s, p));
  }

  lemma SegmentEnd(s: seq<byte>, p: nat, cs: seq<scalar>)
    ensures Coded(s, p) == -1 || (Coded(s, p) != -1 && !Stops(Coded(s, p)) && IsIllegal(Coded(s, p))) ==>
              Whole(cs, SegmentAt(s, p)) == Bad
    ensures Coded(s, p) != -1 && Stops(Coded(s, p)) ==> Whole(cs, SegmentAt(s, p)) == Chars(cs)
  {
  }

  lemma EndStep(s: seq<byte>, p: nat)
    ensures Coded(s, p) != -1 && Stops(Coded(s, p)) ==>
              EndOf(s, p) == p && CodedLength(At(s, p)) == 1 && Packed(Coded(s, p)) == Coded(s, p)
    ensures Coded(s, p) != -1 && !Stops(Coded(s, p)) && !IsIllegal(Coded(s, p)) ==>
              EndOf(s, p) == EndOf(s, p + CodedLength(At(s, p)))
  {
  }

  lemma WholeNone(g: Segment)
    ensures Whole([], g) == g
  {
  }

  /** The first loop of create_name: the units of a path segment into the buffer; the character it stops
      at, and where the path goes on. */
  method ReadSegment(s: seq<byte>, i: nat, lfn: array<unit>) returns (res: FResult, di: nat, wc: nat, p: nat)
    requires lfn.Length == 256 && i <= |s|
    modifies lfn
    ensures res == if Fits(SegmentAt(s, i)) then OK else INVALID_NAME
    ensures res == OK ==> di <= MAX_LFN && lfn[..di] == Text16(SegmentAt(s, i).cs)
    ensures res == OK ==> Stops(wc) && Coded(s, EndOf(s, i)) == wc && p == EndOf(s, i) + 1
  {
    hide Coded, Text16, SegmentAt, EndOf, Utf16, CodedLength;
    ghost var cs: seq<scalar> := [];
    di, p, wc := 0, i, 0;
    WholeNone(SegmentAt(s, i));
    NoText();
    while true
      invariant 0 <= di <= MAX_LFN && lfn[..di] == Text16(cs) && i <= p <= |s|
      invariant SegmentAt(s, i) == Whole(cs, SegmentAt(s, p)) && EndOf(s, i) == EndOf(s, p)
      decreases |s| - p
    {
      var uc, q := TcharToUni(s, p);
      SegmentEnd(s, p, cs);
      EndStep(s, p);
      if uc == NO_CHAR { BadRead(s, p); return INVALID_NAME, di, 0, q; }
      LastUnit(s, p);
      wc := uc % 0x1_0000;
      ghost var c := Coded(s, p);
      if !Stops(c) && !IsIllegal(c) { OneRead(s, p, cs); }
      p := q;
      if uc >= 0x1_0000 {
        lfn[di] := uc / 0x1_0000;
        di := di + 1;
      }
      if Stops(wc) { res := OK; return; }
      if wc < 0x80 && IsIllegal(wc) { res := INVALID_NAME; return; }
      cs := cs + [c];
      if di >= MAX_LFN {
        TooLong(cs, SegmentAt(s, p));
        res := INVALID_NAME;
        return;
      }
      lfn[di] := wc;
      di := di + 1;
    }
  }

  lemma NoText()
    ensures Text16([]) == []
  {
  }

  lemma BadRead(s: seq<byte>, p: nat)
    ensures Coded(s, p) != -1 ==> IsScalar(Coded(s, p)) && Packed(Coded(s, p)) != NO_CHAR
  {
    if Coded(s, p) != -1 { LastUnit(s, p); }
  }

  /** Snip off trailing spaces and dots and end the name with a zero unit. */
  method Snip(lfn: array<unit>, len: nat) returns (di: nat)
    requires lfn.Length == 256 && len <= MAX_LFN
    modifies lfn
    ensures di <= len && lfn[..di] == Trimmed(old(lfn[..len])) && lfn[di] == 0
  {
    di := len;
    ghost var u := lfn[..len];
    while di > 0
      invariant 0 <= di <= len && Trimmed(u) == Trimmed(lfn[..di]) && lfn[..] == old(lfn[..])
    {
      var wc := lfn[di - 1];
      assert lfn[..di][..di - 1] == lfn[..di - 1];
      if wc != 32 && wc != 46 { break; }
      di := di - 1;
    }
    lfn[di] := 0;
  }

  // ---------------------------------------------------------------- create_name: the short name

  /** Conversion of characters from 0x80 on, capitalised, to the code page: never a dot, nor a pair that
      starts with one. */
  ghost predicate IsOem(toOem: unit -> unit) {
    forall u :: u >= 0x80 ==> toOem(u) != 46 && toOem(u) / 0x100 != 46
  }

  // ---- what the eleven bytes are

  /** A character in the code page: what lies beyond ASCII is converted. */
  function OemCode(toOem: unit -> unit, u: unit): unit { if u >= 0x80 then toOem(u) else u }

  /** A character that the code page lacks, or that no short name may have: it becomes an underscore. */
  predicate IsReplaced(w: nat) { w == 0 || NoShort(w) }

  /** A space or a dot, which are left out of a field. */
  predicate IsDropped(u: nat) { u == 32 || u == 46 }

  /** The bytes of one character of a short name: two, or one in capital. */
  function ShortChar(toOem: unit -> unit, u: unit): (r: seq<byte>)
    ensures 1 <= |r| <= 2
  {
    var w := OemCode(toOem, u);
    if w >= 0x100 then [w / 0x100, w % 0x100] else if IsReplaced(w) then [95] else [Capital(w)]
  }

  /** As many whole characters of u, from the front, as there is room for. */
  function FieldOf(toOem: unit -> unit, u: seq<unit>, room: nat): (r: seq<byte>)
    ensures |r| <= room
  {
    if u == [] then []
    else if IsDropped(u[0]) then FieldOf(toOem, u[1..], room)
    else
      var x := ShortChar(toOem, u[0]);
      if |x| > room then [] else x + FieldOf(toOem, u[1..], room - |x|)
  }

  /** On the way a character is left out, replaced or cut off. */
  predicate Loses(toOem: unit -> unit, u: seq<unit>, room: nat) {
    u != []
    && (IsDropped(u[0]) || IsReplaced(OemCode(toOem, u[0])) || |ShortChar(toOem, u[0])| > room
        || Loses(toOem, u[1..], room - |ShortChar(toOem, u[0])|))
  }

  /** All of u in the code page, in capitals. */
  function OemText(toOem: unit -> unit, u: seq<unit>): seq<byte> {
    if u == [] then [] else ShortChar(toOem, u[0]) + OemText(toOem, u[1..])
  }

  /** Nothing is lost exactly when no character is one left out or replaced and the text fits; the field is
      then the whole text. */
  lemma {:induction false} LosesExactly(toOem: unit -> unit, u: seq<unit>, room: nat)
    ensures Loses(toOem, u, room)
       <==> (exists k :: 0 <= k < |u| && (IsDropped(u[k]) || IsReplaced(OemCode(toOem, u[k]))))
            || |OemText(toOem, u)| > room
    ensures !Loses(toOem, u, room) ==> FieldOf(toOem, u, room) == OemText(toOem, u)
  {
    if u != [] {
      var x, v := ShortChar(toOem, u[0]), u[1..];
      if |x| <= room {
        LosesExactly(toOem, v, room - |x|);
        if k :| 0 <= k < |u| && (IsDropped(u[k]) || IsReplaced(OemCode(toOem, u[k]))) {
          if k > 0 { assert v[k - 1] == u[k]; }
        }
        if k :| 0 <= k < |v| && (IsDropped(v[k]) || IsReplaced(OemCode(toOem, v[k]))) { assert u[k + 1] == v[k]; }
      }
    }
  }

  /** Where the last dot ends, 0 when there is none. */
  function DotEnd(n: seq<unit>): (d: nat)
    ensures d <= |n| && (d > 0 ==> n[d - 1] == 46) && forall k :: d <= k < |n| ==> n[k] != 46
  {
    if n == [] || n[|n| - 1] == 46 then |n| else DotEnd(n[..|n| - 1])
  }

  lemma DotEndIs(n: seq<unit>, d: nat)
    requires d <= |n| && (d > 0 ==> n[d - 1] == 46) && forall k :: d <= k < |n| ==> n[k] != 46
    ensures d == DotEnd(n)
  {
  }

  function BodyOf(n: seq<unit>): seq<unit> { if DotEnd(n) == 0 then n else n[..DotEnd(n) - 1] }

  function ExtOf(n: seq<unit>): seq<unit> { if DotEnd(n) == 0 then [] else n[DotEnd(n)..] }

  function Padded(f: seq<byte>, k: nat): (r: seq<byte>)
    requires |f| <= k
    ensures |r| == k && forall i :: 0 <= i < k ==> r[i] == if i < |f| then f[i] else 32
  {
    f + seq(k - |f|, i => 32)
  }

  /** The eleven bytes of a short name before 0xE5, which would mark a free entry, is replaced in the first. */
  function RawShort(toOem: unit -> unit, n: seq<unit>): (r: seq<byte>)
    ensures |r| == 11
  {
    Padded(FieldOf(toOem, BodyOf(n), 8), 8) + Padded(FieldOf(toOem, ExtOf(n), 3), 3)
  }

  function ShortBytes(toOem: unit -> unit, n: seq<unit>): (r: seq<byte>)
    ensures |r| == 11
  {
    var r := RawShort(toOem, n);
    if r[0] == 0xE5 then r[0 := 5] else r
  }

  /** The short name does not stand for the whole name: it starts with its only dot, or a field loses a
      character. */
  predicate Lossy(toOem: unit -> unit, n: seq<unit>) {
    DotEnd(n) == 1 || Loses(toOem, BodyOf(n), 8) || Loses(toOem, ExtOf(n), 3)
  }

  /** Codes of a code page: no byte is a control character or a blank. */
  ghost predicate OemPrints(toOem: unit -> unit) {
    forall u :: u >= 0x80 ==> var w := toOem(u); w == 0 || (w % 0x100 > 32 && (w >= 0x100 ==> w / 0x100 > 32))
  }

  lemma {:induction false} TextPrints(toOem: unit -> unit, u: seq<unit>)
    requires OemPrints(toOem) && forall k :: 0 <= k < |u| ==> u[k] > 32
    ensures forall k :: 0 <= k < |OemText(toOem, u)| ==> OemText(toOem, u)[k] > 32
    ensures u != [] ==> OemText(toOem, u) != []
  {
    if u != [] { TextPrints(toOem, u[1..]); }
  }

  lemma PaddedWithin(f: seq<byte>, g: seq<byte>, k: nat)
    requires |f| <= k && |g| <= k && Padded(f, k) == Padded(g, k) && forall i :: 0 <= i < |f| ==> f[i] != 32
    ensures |f| <= |g| && forall i :: 0 <= i < |f| ==> f[i] == g[i]
  {
    if f != [] { assert Padded(f, k)[|f| - 1] == f[|f| - 1]; }
    assert forall i :: 0 <= i < |f| ==> f[i] == Padded(f, k)[i];
  }

  lemma PaddedOnce(f: seq<byte>, g: seq<byte>, k: nat)
    requires |f| <= k && |g| <= k && Padded(f, k) == Padded(g, k)
    requires (forall i :: 0 <= i < |f| ==> f[i] != 32) && forall i :: 0 <= i < |g| ==> g[i] != 32
    ensures f == g
  {
    PaddedWithin(f, g, k);
    PaddedWithin(g, f, k);
  }

  lemma {:induction false} OemTextOn(toOem: unit -> unit, u: seq<unit>, v: seq<unit>)
    ensures OemText(toOem, u + v) == OemText(toOem, u) + OemText(toOem, v)
  {
    if u == [] {
      assert u + v == v;
    } else {
      assert (u + v)[1..] == u[1..] + v;
      OemTextOn(toOem, u[1..], v);
    }
  }

  lemma SplitAtDot(n: seq<unit>)
    requires n != [] && !IsTrailing(n[|n| - 1])
    ensures DotEnd(n) == 0 <==> ExtOf(n) == []
    ensures if DotEnd(n) == 0 then n == BodyOf(n) else n == BodyOf(n) + ([46] + ExtOf(n))
    ensures DotEnd(n) != 1 ==> BodyOf(n) != []
  {
    var d := DotEnd(n);
    CutAtDot(n, d);
  }

  lemma CutAtDot(n: seq<unit>, d: nat)
    requires n != [] && !IsTrailing(n[|n| - 1]) && d <= |n| && (d > 0 ==> n[d - 1] == 46)
    ensures d > 0 ==> n == n[..d - 1] + ([46] + n[d..]) && n[d..] != []
  {
  }

  /** A name is its body, and when it has a dot, that and the extension. */
  lemma NameParts(toOem: unit -> unit, n: seq<unit>)
    requires n != [] && !IsTrailing(n[|n| - 1])
    ensures OemText(toOem, n)
         == OemText(toOem, BodyOf(n)) + if ExtOf(n) == [] then [] else [46] + OemText(toOem, ExtOf(n))
  {
    hide ShortChar, OemText, DotEnd, BodyOf, ExtOf;
    SplitAtDot(n);
    if DotEnd(n) != 0 {
      var e := ExtOf(n);
      OemTextOn(toOem, BodyOf(n), [46] + e);
      OemTextOn(toOem, [46], e);
      DotText(toOem);
    }
  }

  /** A field that loses nothing holds the whole text, whose characters print. */
  lemma UnlossyField(toOem: unit -> unit, u: seq<unit>, room: nat)
    requires !Loses(toOem, u, room) && forall k :: 0 <= k < |u| ==> u[k] >= 32
    ensures FieldOf(toOem, u, room) == OemText(toOem, u) && |OemText(toOem, u)| <= room
    ensures OemPrints(toOem) ==> AllPrint(OemText(toOem, u)) && (u != [] ==> OemText(toOem, u) != [])
  {
    hide ShortChar, IsReplaced, OemText, FieldOf, Loses, OemPrints;
    LosesExactly(toOem, u, room);
    assert forall k :: 0 <= k < |u| ==> !IsDropped(u[k]);
    if OemPrints(toOem) { TextPrints(toOem, u); }
  }

  predicate AllPrint(f: seq<byte>) { forall k :: 0 <= k < |f| ==> f[k] > 32 }

  lemma DotText(toOem: unit -> unit)
    ensures OemText(toOem, [46]) == [46]
  {
    assert [46][1..] == [];
    assert OemText(toOem, []) == [];
  }

  /** Two names that lose nothing and have the same eleven bytes are the same in the code page, up to case. */
  lemma ShortTells(toOem: unit -> unit, m: seq<unit>, n: seq<unit>)
    requires OemPrints(toOem) && ShortBytes(toOem, m) == ShortBytes(toOem, n) && !Lossy(toOem, m) && !Lossy(toOem, n)
    requires m != [] && !IsTrailing(m[|m| - 1]) && forall k :: 0 <= k < |m| ==> m[k] >= 32
    requires n != [] && !IsTrailing(n[|n| - 1]) && forall k :: 0 <= k < |n| ==> n[k] >= 32
    ensures OemText(toOem, m) == OemText(toOem, n)
  {
    hide OemText, FieldOf, BodyOf, ExtOf, Lossy, OemPrints;
    SplitAtDot(m);
    SplitAtDot(n);
    NameParts(toOem, m);
    NameParts(toOem, n);
    LossyParts(toOem, m);
    LossyParts(toOem, n);
    UnlossyField(toOem, BodyOf(m), 8);
    UnlossyField(toOem, ExtOf(m), 3);
    UnlossyField(toOem, BodyOf(n), 8);
    UnlossyField(toOem, ExtOf(n), 3);
    var r, t := RawShort(toOem, m), RawShort(toOem, n);
    assert r[0] > 32 && t[0] > 32;
    assert r == t by {
      assert forall i :: 1 <= i < 11 ==> r[i] == ShortBytes(toOem, m)[i] && t[i] == ShortBytes(toOem, n)[i];
    }
    assert r[..8] == Padded(OemText(toOem, BodyOf(m)), 8) && t[..8] == Padded(OemText(toOem, BodyOf(n)), 8);
    assert r[8..] == Padded(OemText(toOem, ExtOf(m)), 3) && t[8..] == Padded(OemText(toOem, ExtOf(n)), 3);
    PaddedOnce(OemText(toOem, BodyOf(m)), OemText(toOem, BodyOf(n)), 8);
    PaddedOnce(OemText(toOem, ExtOf(m)), OemText(toOem, ExtOf(n)), 3);
    if ExtOf(m) == [] { NoOem(toOem); }
    if ExtOf(n) == [] { NoOem(toOem); }
  }

  lemma LossyParts(toOem: unit -> unit, n: seq<unit>)
    requires forall k :: 0 <= k < |n| ==> n[k] >= 32
    ensures !Lossy(toOem, n) ==> DotEnd(n) != 1 && !Loses(toOem, BodyOf(n), 8) && !Loses(toOem, ExtOf(n), 3)
    ensures forall k :: 0 <= k < |BodyOf(n)| ==> BodyOf(n)[k] >= 32
    ensures forall k :: 0 <= k < |ExtOf(n)| ==> ExtOf(n)[k] >= 32
  {
  }

  lemma NoOem(toOem: unit -> unit)
    ensures OemText(toOem, []) == []
  {
  }

  /** A field of plain ASCII characters, spaces among them. */
  lemma AsciiField(toOem: unit -> unit, u: seq<unit>, k: nat, room: nat)
    requires k < |u| && (u[k] == 32 || IsPlain(u[k]))
    ensures u[k] == 32 ==> FieldOf(toOem, u[k..], room) == FieldOf(toOem, u[k + 1..], room)
    ensures u[k] != 32 && room > 0 ==>
              FieldOf(toOem, u[k..], room) == [Capital(u[k])] + FieldOf(toOem, u[k + 1..], room - 1)
    ensures u[k] != 32 && room == 0 ==> FieldOf(toOem, u[k..], room) == []
    ensures FieldOf(toOem, u[|u|..], room) == []
  {
    assert u[k..][0] == u[k] && u[k..][1..] == u[k + 1..];
  }

  lemma LongFileLoses(toOem: unit -> unit)
    ensures Loses(toOem, [108, 111, 110, 103, 32, 102, 105, 108, 101, 32, 97], 8)
  {
    hide FieldOf, Loses, IsReplaced, OemCode, ShortChar;
    var b: seq<unit> := [108, 111, 110, 103, 32, 102, 105, 108, 101, 32, 97];
    LosesExactly(toOem, b, 8);
    assert IsDropped(b[4]);
  }

  lemma LongFileBody(toOem: unit -> unit)
    ensures FieldOf(toOem, [108, 111, 110, 103, 32, 102, 105, 108, 101, 32, 97], 8) == [76, 79, 78, 71, 70, 73, 76, 69]
  {
    hide FieldOf, IsReplaced, OemCode, ShortChar;
    var b: seq<unit> := [108, 111, 110, 103, 32, 102, 105, 108, 101, 32, 97];
    assert b[0..] == b;
    AsciiField(toOem, b, 0, 8);
    AsciiField(toOem, b, 1, 7);
    AsciiField(toOem, b, 2, 6);
    AsciiField(toOem, b, 3, 5);
    AsciiField(toOem, b, 4, 4);
    var r := FieldOf(toOem, b[5..], 4);
    assert r == [70, 73, 76, 69] by {
      assert b[5..] == [102, 105, 108, 101, 32, 97];
      FileField(toOem);
    }
  }

  lemma FileField(toOem: unit -> unit)
    ensures FieldOf(toOem, [102, 105, 108, 101, 32, 97], 4) == [70, 73, 76, 69]
  {
    hide FieldOf, IsReplaced, OemCode, ShortChar;
    var b: seq<unit> := [102, 105, 108, 101, 32, 97];
    assert b[0..] == b;
    AsciiField(toOem, b, 0, 4);
    AsciiField(toOem, b, 1, 3);
    AsciiField(toOem, b, 2, 2);
    AsciiField(toOem, b, 3, 1);
    AsciiField(toOem, b, 4, 0);
    AsciiField(toOem, b, 5, 0);
  }

  lemma LongFileExt(toOem: unit -> unit)
    ensures FieldOf(toOem, [116, 120, 116], 3) == [84, 88, 84]
  {
    hide FieldOf, IsReplaced, OemCode, ShortChar;
    var e: seq<unit> := [116, 120, 116];
    assert e[0..] == e;
    AsciiField(toOem, e, 0, 3);
    AsciiField(toOem, e, 1, 2);
    AsciiField(toOem, e, 2, 1);
    AsciiField(toOem, e, 2, 0);
  }

  /** "long file a.txt" has the short name LONGFILETXT, which does not stand for it: the spaces and the last
      letter of the body are lost. */
  lemma LongFileLossy(toOem: unit -> unit)
    ensures var n: seq<unit> := [108, 111, 110, 103, 32, 102, 105, 108, 101, 32, 97, 46, 116, 120, 116];
            ShortBytes(toOem, n) == [76, 79, 78, 71, 70, 73, 76, 69, 84, 88, 84] && Lossy(toOem, n)
  {
    hide FieldOf, Loses, DotEnd;
    var n: seq<unit> := [108, 111, 110, 103, 32, 102, 105, 108, 101, 32, 97, 46, 116, 120, 116];
    DotEndIs(n, 12);
    assert BodyOf(n) == [108, 111, 110, 103, 32, 102, 105, 108, 101, 32, 97] && ExtOf(n) == [116, 120, 116];
    LongFileLoses(toOem);
    LongFileBody(toOem);
    LongFileExt(toOem);
  }

  // ---- filling the two fields

  /** After the first k characters of u a field of `size` bytes holds h and has room for r more; lost: one of
      them was left out, replaced or cut off. */
  ghost predicate AtField(toOem: unit -> unit, u: seq<unit>, size: nat, k: nat, h: seq<byte>, r: nat, lost: bool) {
    k <= |u| && |h| + r <= size && (r > 0 ==> |h| + r == size)
    && FieldOf(toOem, u, size) == h + FieldOf(toOem, u[k..], r)
    && (Loses(toOem, u, size) <==> lost || Loses(toOem, u[k..], r))
  }

  lemma FieldStep(toOem: unit -> unit, u: seq<unit>, size: nat, k: nat, h: seq<byte>, r: nat, lost: bool)
    requires AtField(toOem, u, size, k, h, r, lost) && k < |u|
    ensures var x := ShortChar(toOem, u[k]);
            if IsDropped(u[k]) then AtField(toOem, u, size, k + 1, h, r, true)
            else if |x| <= r then
              AtField(toOem, u, size, k + 1, h + x, r - |x|, lost || IsReplaced(OemCode(toOem, u[k])))
            else
              AtField(toOem, u, size, k + 1, h, 0, true) && FieldOf(toOem, u, size) == h && Loses(toOem, u, size)
  {
    hide ShortChar, IsReplaced, OemCode;
    var v, x := u[k..], ShortChar(toOem, u[k]);
    assert v[0] == u[k] && v[1..] == u[k + 1..];
    if !IsDropped(u[k]) {
      if |x| <= r {
        assert h + (x + FieldOf(toOem, v[1..], r - |x|)) == (h + x) + FieldOf(toOem, v[1..], r - |x|);
      } else {
        assert FieldOf(toOem, v, r) == [] && FieldOf(toOem, v[1..], 0) == [] && h + [] == h;
      }
    }
  }

  lemma FieldEnd(toOem: unit -> unit, u: seq<unit>, size: nat, h: seq<byte>, r: nat, lost: bool)
    requires AtField(toOem, u, size, |u|, h, r, lost)
    ensures FieldOf(toOem, u, size) == h && (Loses(toOem, u, size) <==> lost)
  {
    assert u[|u|..] == [];
    assert h + [] == h;
  }

  lemma FieldStart(toOem: unit -> unit, u: seq<unit>, size: nat)
    ensures AtField(toOem, u, size, 0, [], size, false)
  {
    assert u[0..] == u && [] + FieldOf(toOem, u, size) == FieldOf(toOem, u, size);
  }

  /** The body b is being put into bytes 0 to 7 of f, or, after it, the extension e into bytes 8 to 10: k
      characters of it are done, h is there and the next byte is i. */
  ghost predicate Filling(toOem: unit -> unit, b: seq<unit>, e: seq<unit>, bad: bool, ni: nat, i: nat, k: nat,
                          h: seq<byte>, lost: bool, loss: bool, f: seq<byte>) {
    |f| >= 11 && i <= ni
    && if ni == 8 then
         AtField(toOem, b, 8, k, h, 8 - i, lost) && f[..8] == Padded(h, 8) && f[8..11] == Padded([], 3)
         && (loss <==> bad || lost)
       else
         && ni == 11 && 8 <= i && AtField(toOem, e, 3, k, h, 11 - i, lost)
         && f[..8] == Padded(FieldOf(toOem, b, 8), 8) && f[8..11] == Padded(h, 3)
         && (loss <==> bad || Loses(toOem, b, 8) || lost)
  }

  /** Both are in place. */
  ghost predicate Filled(toOem: unit -> unit, b: seq<unit>, e: seq<unit>, bad: bool, loss: bool, f: seq<byte>) {
    |f| >= 11 && f[..8] == Padded(FieldOf(toOem, b, 8), 8) && f[8..11] == Padded(FieldOf(toOem, e, 3), 3)
    && (loss <==> bad || Loses(toOem, b, 8) || Loses(toOem, e, 3))
  }

  lemma FillStart(toOem: unit -> unit, b: seq<unit>, e: seq<unit>, bad: bool, f: seq<byte>)
    requires |f| >= 11 && forall k :: 0 <= k < 11 ==> f[k] == 32
    ensures Filling(toOem, b, e, bad, 8, 0, 0, [], false, bad, f)
  {
    FieldStart(toOem, b, 8);
  }

  /** The next character is left out, put in, or does not fit. */
  lemma FillStep(toOem: unit -> unit, b: seq<unit>, e: seq<unit>, bad: bool, ni: nat, i: nat, k: nat, h: seq<byte>,
                 lost: bool, loss: bool, f: seq<byte>)
    requires Filling(toOem, b, e, bad, ni, i, k, h, lost, loss, f) && k < |if ni == 8 then b else e|
    ensures var c := if ni == 8 then b[k] else e[k];
            var x := ShortChar(toOem, c);
            var rep := IsReplaced(OemCode(toOem, c));
            if IsDropped(c) then Filling(toOem, b, e, bad, ni, i, k + 1, h, true, true, f)
            else if |x| <= ni - i then
              Filling(toOem, b, e, bad, ni, i + |x|, k + 1, h + x, lost || rep, loss || rep, PutBytes(f, i, x))
            else
              Filling(toOem, b, e, bad, ni, ni, k + 1, h, true, true, f)
              && (ni == 8 ==> Filling(toOem, b, e, bad, 11, 8, 0, [], false, true, f))
              && (ni == 11 || e == [] ==> Filled(toOem, b, e, bad, true, f))
  {
    hide ShortChar, IsReplaced, OemCode, FieldOf, Loses, AtField;
    var u, size := if ni == 8 then b else e, if ni == 8 then 8 else 3;
    var x := ShortChar(toOem, u[k]);
    FieldStep(toOem, u, size, k, h, ni - i, lost);
    if !IsDropped(u[k]) && |x| <= ni - i { PutPadded(toOem, u, size, k, h, ni - i, lost, f, i, x); }
    if !IsDropped(u[k]) && |x| > ni - i {
      FieldStart(toOem, e, 3);
      if e == [] { NoField(toOem); }
    }
  }

  lemma NoField(toOem: unit -> unit)
    ensures FieldOf(toOem, [], 3) == [] && !Loses(toOem, [], 3)
  {
  }

  lemma PutPadded(toOem: unit -> unit, u: seq<unit>, size: nat, k: nat, h: seq<byte>, r: nat, lost: bool, f: seq<byte>,
                  i: nat, x: seq<byte>)
    requires AtField(toOem, u, size, k, h, r, lost) && 0 < |x| <= r && |f| >= 11
    requires if size == 8 then i == 8 - r && f[..8] == Padded(h, 8)
             else size == 3 && i == 11 - r && f[8..11] == Padded(h, 3)
    ensures var g := PutBytes(f, i, x);
            if size == 8 then g[..8] == Padded(h + x, 8) && g[8..11] == f[8..11]
            else g[8..11] == Padded(h + x, 3) && g[..8] == f[..8]
  {
    var g := PutBytes(f, i, x);
    if size == 8 {
      forall j | 0 <= j < 8 ensures g[j] == Padded(h + x, 8)[j] { assert f[j] == f[..8][j]; }
      assert g[..8] == Padded(h + x, 8);
    } else {
      forall j | 8 <= j < 11 ensures g[j] == Padded(h + x, 3)[j - 8] { assert f[j] == f[8..11][j - 8]; }
      assert g[8..11] == Padded(h + x, 3);
    }
  }

  /** At the end of the body the extension begins, if there is one; at the end of that all is done. */
  lemma FillNext(toOem: unit -> unit, b: seq<unit>, e: seq<unit>, bad: bool, ni: nat, i: nat, k: nat, h: seq<byte>,
                 lost: bool, loss: bool, f: seq<byte>)
    requires Filling(toOem, b, e, bad, ni, i, k, h, lost, loss, f) && k == |if ni == 8 then b else e|
    ensures ni == 8 ==> Filling(toOem, b, e, bad, 11, 8, 0, [], false, loss, f)
    ensures ni == 11 || e == [] ==> Filled(toOem, b, e, bad, loss, f)
  {
    hide FieldOf, Loses, AtField;
    FieldEnd(toOem, if ni == 8 then b else e, if ni == 8 then 8 else 3, h, ni - i, lost);
    FieldStart(toOem, e, 3);
    if e == [] { NoField(toOem); }
  }

  /** Where the short name stands while the name is still in 8.3 form: before the last dot, which is
      before unit `dot` (0: there is none), or after it. */
  ghost predicate InForm(n: seq<unit>, dot: nat, si: nat, i: nat, ni: nat, b: nat, f: seq<byte>)
    requires si <= |n| && dot <= |n| && |f| >= 11
  {
    if ni == 8 then
      i == si <= 8 && (dot == 0 || si < dot) && Holding(f[..8], n[..si]) && b == CaseBits(n[..si])
      && Holding(f[8..11], [])
    else
      && ni == 11 && 0 < dot <= si && dot - 1 <= 8 && n[dot - 1] == 46 && i == 8 + si - dot && i <= 11
      && Holding(f[..8], n[..dot - 1]) && Holding(f[8..11], n[dot..si])
      && b == 4 * CaseBits(n[..dot - 1]) + CaseBits(n[dot..si])
  }

  /** A name in 8.3 form but for the case of its letters; `dot` is as above. */
  predicate Short(n: seq<unit>, dot: nat)
    requires dot <= |n|
  {
    if dot == 0 then |n| <= 8 && AllPlain(n)
    else 1 < dot <= 9 && |n| <= dot + 3 && AllPlain(n[..dot - 1]) && AllPlain(n[dot..])
  }

  /** Such a name stays in form. */
  lemma FormRoom(n: seq<unit>, dot: nat, si: nat, i: nat, ni: nat, b: nat, f: seq<byte>)
    requires si < |n| && dot <= |n| && |f| >= 11 && InForm(n, dot, si, i, ni, b, f) && Short(n, dot)
    ensures si + 1 != dot ==> IsPlain(n[si]) && i < ni
    ensures si + 1 == dot ==> ni == 8
  {
    if dot > 0 && si + 1 < dot { assert n[si] == n[..dot - 1][si]; }
    if dot > 0 && si + 1 > dot { assert n[si] == n[dot..][si - dot]; }
  }

  /** A name is in 8.3 form exactly when it is so up to case and neither part mixes cases. */
  lemma ShortExactly(n: seq<unit>, dot: nat, i: nat, ni: nat, b: nat, f: seq<byte>)
    requires n != [] && !IsTrailing(n[|n| - 1]) && dot <= |n| && (dot > 0 ==> n[dot - 1] == 46)
    requires forall k :: dot <= k < |n| ==> n[k] != 46
    ensures InShort(n) ==> Short(n, dot) && n[0] != 46 && n[0] != 32
    ensures InShort(n) && |f| >= 11 && InForm(n, dot, |n|, i, ni, b, f) ==>
              var c := if ni == 8 then 4 * b else b; c / 4 != 3 && c % 4 != 3
  {
    hide InForm, ShortBy, Short, CaseBits;
    if InShort(n) {
      var body, ext :| ShortBy(n, body, ext);
      ShortPlaces(n, dot, body, ext);
      if |f| >= 11 { FormBits(n, dot, i, ni, b, f); }
    }
  }

  lemma ShortPlaces(n: seq<unit>, dot: nat, body: seq<unit>, ext: seq<unit>)
    requires ShortBy(n, body, ext) && dot <= |n| && (dot > 0 ==> n[dot - 1] == 46)
    requires forall k :: dot <= k < |n| ==> n[k] != 46
    ensures Short(n, dot) && n[0] != 46 && n[0] != 32
    ensures if dot == 0 then CaseBits(n) < 3 else CaseBits(n[..dot - 1]) < 3 && CaseBits(n[dot..]) < 3
  {
    hide FitsField, CaseBits;
    FieldPlain(body, 8);
    FieldPlain(ext, 3);
    DotPlace(n, dot, body, ext);
  }

  lemma FieldPlain(u: seq<unit>, k: nat)
    requires FitsField(u, k)
    ensures |u| <= k && AllPlain(u) && CaseBits(u) < 3 && (u != [] ==> u[0] != 46 && u[0] != 32)
  {
  }

  /** The last dot comes before the extension. */
  lemma DotPlace(n: seq<unit>, dot: nat, body: seq<unit>, ext: seq<unit>)
    requires n == (if ext == [] then body else body + [46] + ext) && body != [] && AllPlain(body) && AllPlain(ext)
    requires dot <= |n| && (dot > 0 ==> n[dot - 1] == 46) && (forall k :: dot <= k < |n| ==> n[k] != 46)
    ensures n[0] == body[0]
    ensures if ext == [] then dot == 0 else dot == |body| + 1 && n[..dot - 1] == body && n[dot..] == ext
  {
    if ext != [] {
      assert n[|body|] == 46;
      assert forall k :: |body| < k < |n| ==> n[k] == ext[k - |body| - 1];
    }
  }

  lemma FormBits(n: seq<unit>, dot: nat, i: nat, ni: nat, b: nat, f: seq<byte>)
    requires dot <= |n| && |f| >= 11
    ensures InForm(n, dot, |n|, i, ni, b, f) ==>
              if ni == 8 then dot == 0 && b == CaseBits(n)
              else ni == 11 && dot > 0 && b == 4 * CaseBits(n[..dot - 1]) + CaseBits(n[dot..])
  {
    hide HasUpper, HasLower, Holding;
    assert n[..|n|] == n && n[dot..|n|] == n[dot..];
  }

  /** What is told by a short name in 8.3 form. */
  lemma ShortIs83(n: seq<unit>, body: seq<unit>, ext: seq<unit>, fn: seq<byte>, nt: nat)
    requires Is83(n, body, ext, fn, nt)
    ensures InShort(n)
  {
    assert FitsField(body, 8) && FitsField(ext, 3);
    assert ShortBy(n, body, ext);
  }

  /** A plain character is taken over. */
  lemma FormTakes(n: seq<unit>, dot: nat, si: nat, i: nat, ni: nat, b: nat, f: seq<byte>)
    requires si < |n| && dot <= |n| && |f| >= 11 && InForm(n, dot, si, i, ni, b, f) && i < ni && si + 1 != dot
    requires IsPlain(n[si])
    ensures var c := if IsUpperLetter(n[si]) then WithBit(b, 2) else if IsLowerLetter(n[si]) then WithBit(b, 1) else b;
            i < 11 && InForm(n, dot, si + 1, i + 1, ni, c, f[i := Capital(n[si])])
  {
    hide HasUpper, HasLower;
    var f' := f[i := Capital(n[si])];
    if ni == 8 {
      assert n[..si + 1] == n[..si] + [n[si]];
      CaseBitsOn(n[..si], n[si]);
    } else {
      assert n[dot..si + 1] == n[dot..si] + [n[si]];
      CaseBitsOn(n[dot..si], n[si]);
    }
  }

  /** b with bit v (1 or 2) set. */
  function WithBit(b: nat, v: nat): nat
    requires v == 1 || v == 2
  {
    if b / v % 2 == 1 then b else b + v
  }

  /** At the last dot the extension begins. */
  lemma FormDot(n: seq<unit>, dot: nat, si: nat, i: nat, b: nat, f: seq<byte>)
    requires si < |n| && dot <= |n| && |f| >= 11 && InForm(n, dot, si, i, 8, b, f) && si + 1 == dot && n[si] == 46
    ensures InForm(n, dot, dot, 8, 11, 4 * b, f)
  {
    assert n[..dot - 1] == n[..si] && n[dot..dot] == [];
  }

  lemma FormStart(n: seq<unit>, dot: nat, f: seq<byte>)
    requires dot <= |n| && |f| >= 11 && forall k :: 0 <= k < 11 ==> f[k] == 32
    ensures InForm(n, dot, 0, 0, 8, 0, f)
  {
    assert n[..0] == [];
  }

  /** The name was in form to its end. */
  lemma FormEnd(n: seq<unit>, dot: nat, i: nat, ni: nat, b: nat, f: seq<byte>, nt: nat)
    returns (body: seq<unit>, ext: seq<unit>)
    requires n != [] && n[0] != 46 && n[|n| - 1] != 46 && dot <= |n| && |f| >= 11 && InForm(n, dot, |n|, i, ni, b, f)
    requires var c := if ni == 8 then 4 * b else b;
             c / 4 != 3 && c % 4 != 3 && (nt / 8 % 2 == 1 <==> c / 4 % 2 == 1) && (nt / 16 % 2 == 1 <==> c % 2 == 1)
    ensures Is83(n, body, ext, f, nt)
  {
    if ni == 8 {
      body, ext := n, [];
      assert n[..|n|] == n;
    } else {
      body, ext := n[..dot - 1], n[dot..];
      assert n[dot..|n|] == ext;
      assert n == body + [46] + ext;
    }
  }

  /** The first byte of a short name is that of no free entry and of no dot entry. */
  predicate FirstByteOk(c: nat) { c != 0 && c != 0xE5 && c != 46 }

  /** The flags of a short name: lossy, needs a long name, last segment, body and extension in small letters. */
  function Flags(loss: bool, long: bool, last: bool, small: bool, smallExt: bool): (b: byte)
    ensures b < 32 && (b as nat % 2 == 1 <==> loss) && (b as nat / 2 % 2 == 1 <==> long)
    ensures b as nat / 4 % 2 == 1 <==> last
    ensures (b as nat / 8 % 2 == 1 <==> small) && (b as nat / 16 % 2 == 1 <==> smallExt)
  {
    (if loss then 1 else 0) + (if long then 2 else 0) + (if last then 4 else 0)
    + (if small then 8 else 0) + (if smallExt then 16 else 0)
  }

  /** Leading spaces do not come into a field. */
  lemma {:induction false} BlanksSkipped(toOem: unit -> unit, u: seq<unit>, k: nat, size: nat)
    requires k <= |u| && forall i :: 0 <= i < k ==> u[i] == 32
    ensures FieldOf(toOem, u, size) == FieldOf(toOem, u[k..], size)
    ensures Loses(toOem, u, size) <==> k > 0 || Loses(toOem, u[k..], size)
  {
    hide FieldOf, Loses;
    if k == 0 {
      assert u[0..] == u;
    } else {
      BlanksSkipped(toOem, u[1..], k - 1, size);
      BlankSkipped(toOem, u, size);
      assert u[1..][k - 1..] == u[k..];
    }
  }

  lemma BlankSkipped(toOem: unit -> unit, u: seq<unit>, size: nat)
    requires u != [] && u[0] == 32
    ensures FieldOf(toOem, u, size) == FieldOf(toOem, u[1..], size) && Loses(toOem, u, size)
  {
  }

  /** What the loop puts into the fields, having skipped leading spaces, are the bytes of the short name. */
  lemma FilledShort(toOem: unit -> unit, n: seq<unit>, start: nat, loss: bool, f: seq<byte>)
    requires n != [] && start < |n| && (forall k :: 0 <= k < start ==> n[k] == 32) && n[start] != 32
    requires DotEnd(n) > 0 ==> start < DotEnd(n)
    requires var d := DotEnd(n);
             Filled(toOem, BodyFrom(n, start, d), ExtFrom(n, d), start > 0 || n[start] == 46, loss, f)
    ensures f[..11] == RawShort(toOem, n) && (loss <==> Lossy(toOem, n)) && (n[0] == 46 ==> loss)
  {
    hide FieldOf, Loses, DotEnd;
    var b := BodyOf(n);
    assert ExtFrom(n, DotEnd(n)) == ExtOf(n);
    assert BodyFrom(n, start, DotEnd(n)) == b[start..];
    BlanksSkipped(toOem, b, start, 8);
    assert f[..11] == f[..8] + f[8..11];
    if start == 0 && n[0] == 46 && DotEnd(n) != 1 {
      assert b[0] == 46;
      DotLost(toOem, b);
    }
  }

  lemma DotLost(toOem: unit -> unit, u: seq<unit>)
    requires u != [] && u[0] == 46
    ensures Loses(toOem, u, 8)
  {
  }

  /** 0xE5 in the first byte, which would mark a free entry, is replaced. */
  lemma FirstReplaced(toOem: unit -> unit, n: seq<unit>, f: seq<byte>, g: seq<byte>)
    requires |f| == |g| >= 11 && f[..11] == RawShort(toOem, n) && g == if f[0] == 0xE5 then f[0 := 5] else f
    ensures g[..11] == ShortBytes(toOem, n)
  {
    assert f[..11][0] == f[0];
  }

  /** The eleven bytes of the short name of the name in the buffer. */
  method PutFields(toOem: unit -> unit, lfn: array<unit>, len: nat, ghost n: seq<unit>, fn: array<byte>)
    returns (loss: bool, long: bool, ghost i: nat, ni: nat, b: nat)
    requires IsOem(toOem) && lfn.Length == 256 && HasName(lfn[..], n) && len == |n| > 0 && !IsTrailing(n[|n| - 1])
    requires fn.Length == 12
    requires forall k :: 0 <= k < |n| ==> n[k] >= 32
    modifies fn
    ensures FirstByteOk(fn[0]) && (loss ==> long) && (ni == 8 || ni == 11) && b < (if ni == 8 then 4 else 16)
    ensures !long ==> n[0] != 46 && InForm(n, DotEnd(n), |n|, i, ni, b, fn[..])
    ensures InShort(n) ==> !long
    ensures fn[..11] == ShortBytes(toOem, n) && (loss <==> Lossy(toOem, n))
  {
    hide InForm, HasName, Short, InShort, Filled, ShortBytes, RawShort, Lossy, BodyFrom, ExtFrom, DotEnd;
    NameUnits(lfn[..], n);
    NamesShort(lfn[..], n);
    assert forall k :: 0 <= k <= |n| ==> lfn[k] == NameAt(n, k);
    var si := 0;
    while lfn[si] == 32
      invariant 0 <= si <= |n| && forall k :: 0 <= k < si ==> n[k] == 32
      decreases |n| - si
    {
      si := si + 1;
    }
    var bad := si > 0 || lfn[si] == 46;
    var di := len;
    while di > 0 && lfn[di - 1] != 46
      invariant 0 <= di <= len && forall k :: di <= k < |n| ==> n[k] != 46
    {
      di := di - 1;
    }
    DotEndIs(n, di);
    forall k | 0 <= k < 11 { fn[k] := 32; }
    assert lfn[..] == old(lfn[..]);
    FormStart(n, di, fn[..]);
    ShortExactly(n, di, 0, 8, 0, fn[..]);
    loss, long, i, ni, b := FillFields(toOem, lfn, n, si, di, bad, fn);
    FilledShort(toOem, n, si, loss, fn[..]);
    ghost var f := fn[..];
    if !long { FormFirst(n, di, i, ni, b, f); }
    if fn[0] == 0xE5 { fn[0] := 5; }
    FirstReplaced(toOem, n, f, fn[..]);
  }

  /** The last part of create_name: the short name of the name in the buffer, and the flags. */
  method MakeSfn(toOem: unit -> unit, lfn: array<unit>, len: nat, ghost n: seq<unit>, last: bool, fn: array<byte>)
    returns (ghost body: seq<unit>, ghost ext: seq<unit>)
    requires IsOem(toOem) && lfn.Length == 256 && HasName(lfn[..], n) && len == |n| > 0 && !IsTrailing(n[|n| - 1])
    requires fn.Length == 12
    requires forall k :: 0 <= k < |n| ==> n[k] >= 32
    modifies fn
    ensures FirstByteOk(fn[0]) && (fn[11] as nat % 2 == 1 ==> fn[11] as nat / 2 % 2 == 1) && fn[11] < 32
    ensures fn[11] as nat / 2 % 2 == 0 ==> Is83(n, body, ext, fn[..], fn[11] as nat)
    ensures (fn[11] as nat / 4 % 2 == 1) == last
    ensures fn[11] as nat / 2 % 2 == 0 <==> InShort(n)
    ensures fn[..11] == ShortBytes(toOem, n) && (fn[11] as nat % 2 == 1 <==> Lossy(toOem, n))
  {
    hide InForm, HasName, Is83, Flags, Short, InShort, ShortBytes, Lossy;
    var loss, long, ni, b;
    ghost var i;
    loss, long, i, ni, b := PutFields(toOem, lfn, len, n, fn);
    ghost var f, b0 := fn[..], b;
    ShortExactly(n, DotEnd(n), i, ni, b, f);
    if ni == 8 { b := 4 * b; }
    if b / 4 == 3 || b % 4 == 3 { long := true; }
    var small, smallExt := !long && b / 4 % 2 == 1, !long && b % 2 == 1;
    fn[11] := Flags(loss, long, last, small, smallExt);
    assert fn[..11] == f[..11];
    body, ext := [], [];
    if !long {
      FormSame(n, DotEnd(n), |n|, i, ni, b0, f, fn[..]);
      body, ext := FormEnd(n, DotEnd(n), i, ni, b0, fn[..], fn[11] as nat);
      ShortIs83(n, body, ext, fn[..], fn[11] as nat);
    }
  }

  lemma FormSame(n: seq<unit>, dot: nat, si: nat, i: nat, ni: nat, b: nat, f: seq<byte>, f': seq<byte>)
    requires si <= |n| && dot <= |n| && |f| == |f'| >= 11 && f[..11] == f'[..11] && InForm(n, dot, si, i, ni, b, f)
    ensures InForm(n, dot, si, i, ni, b, f')
  {
    assert f[..8] == f[..11][..8] == f'[..8] && f[8..11] == f[..11][8..] == f'[8..11];
  }

  /** In form, the first byte is an ASCII character. */
  lemma FormFirst(n: seq<unit>, dot: nat, i: nat, ni: nat, b: nat, f: seq<byte>)
    requires n != [] && dot <= |n| && |f| >= 11 && InForm(n, dot, |n|, i, ni, b, f)
    ensures f[0] < 0x80
  {
    assert f[..8][0] == f[0];
  }

  /** The body and the extension of a name from unit `start` on, whose last dot ends at di. */
  function BodyFrom(n: seq<unit>, start: nat, di: nat): seq<unit>
    requires start <= |n| && di <= |n| && (di > 0 ==> start < di)
  {
    if di == 0 then n[start..] else n[start..di - 1]
  }

  function ExtFrom(n: seq<unit>, di: nat): seq<unit>
    requires di <= |n|
  {
    if di == 0 then [] else n[di..]
  }

  /** Character `at` of the name is the next one of the field. */
  lemma NextOfField(n: seq<unit>, start: nat, di: nat, at: nat, ni: nat)
    requires start <= at <= |n| && di <= |n| && (di > 0 ==> start < di) && (ni == 8 && di > 0 ==> at < di)
    requires ni == 11 ==> 0 < di <= at
    requires ni == 8 || ni == 11
    ensures var u, k := if ni == 8 then BodyFrom(n, start, di) else ExtFrom(n, di), at - if ni == 8 then start else di;
            0 <= k <= |u| && (k == |u| <==> at == |n| || at + 1 == di)
            && (k < |u| ==> u[k] == n[at])
  {
  }

  /** A name without a dot has no extension to come. */
  lemma NoExt(n: seq<unit>)
    ensures ExtFrom(n, 0) == []
  {
  }

  /** The loop over the fields of the short name. */
  method FillFields(toOem: unit -> unit, lfn: array<unit>, ghost n: seq<unit>, start: nat, di: nat, bad: bool,
                    fn: array<byte>)
    returns (loss: bool, long: bool, i: nat, ni: nat, b: nat)
    requires IsOem(toOem) && lfn.Length == 256 && HasName(lfn[..], n) && fn.Length == 12 && start <= |n| && di <= |n|
    requires (di > 0 ==> n[di - 1] == 46 && start < di) && forall k :: 0 <= k < 11 ==> fn[k] == 32
    requires (forall k :: di <= k < |n| ==> n[k] != 46) && (forall k :: 0 <= k < |n| ==> n[k] >= 32)
    requires (!bad ==> start == 0) && InForm(n, di, 0, 0, 8, 0, fn[..])
    requires bad ==> !InShort(n)
    requires InShort(n) ==> Short(n, di)
    modifies fn
    ensures InShort(n) ==> !long
    ensures (loss ==> long) && fn[0] != 0 && fn[0] != 46
    ensures (ni == 8 || ni == 11) && b < (if ni == 8 then 4 else 16)
    ensures !long ==> InForm(n, di, |n|, i, ni, b, fn[..])
    ensures Filled(toOem, BodyFrom(n, start, di), ExtFrom(n, di), bad, loss, fn[..])
  {
    hide InForm, HasName, Short, InShort, Filling, Filled, ShortChar, IsReplaced, OemCode, BodyFrom, ExtFrom;
    NameUnits(lfn[..], n);
    NamesShort(lfn[..], n);
    assert forall k :: 0 <= k <= |n| ==> lfn[k] == NameAt(n, k);
    ghost var body, ext := BodyFrom(n, start, di), ExtFrom(n, di);
    var si := start;
    loss, long, i, ni, b := bad, bad, 0, 8, 0;
    ghost var k: nat, h: seq<byte>, lost := 0, [], false;
    FillStart(toOem, body, ext, bad, fn[..]);
    while true
      invariant start <= si <= |n| <= MAX_LFN && i <= ni && (ni == 8 || ni == 11) && b < (if ni == 8 then 4 else 16)
      invariant loss ==> long
      invariant fn[0] != 0 && fn[0] != 46 && (i == 0 ==> ni == 8)
      invariant !long ==> InForm(n, di, si, i, ni, b, fn[..])
      invariant InShort(n) ==> !long
      invariant (ni == 8 && di > 0 ==> si < di) && (ni == 11 ==> 0 < di <= si)
      invariant k == si - (if ni == 8 then start else di)
      invariant Filling(toOem, body, ext, bad, ni, i, k, h, lost, loss, fn[..])
      decreases |n| - si
    {
      var wc: nat := lfn[si];
      ghost var at := si;
      NextOfField(n, start, di, at, ni);
      if wc == 0 {
        NoExt(n);
        FillNext(toOem, body, ext, bad, ni, i, k, h, lost, loss, fn[..]);
        break;
      }
      if InShort(n) { FormRoom(n, di, at, i, ni, b, fn[..]); }
      si := si + 1;
      if si == di { FillNext(toOem, body, ext, bad, ni, i, k, h, lost, loss, fn[..]); }
      else { FillStep(toOem, body, ext, bad, ni, i, k, h, lost, loss, fn[..]); }
      if wc == 32 || (wc == 46 && si != di) {
        loss, long, lost, k := true, true, true, k + 1;
      } else if i >= ni || si == di {
        if ni == 11 { loss, long := true, true; break; }
        if si != di { loss, long := true, true; }
        if si > di { NoExt(n); break; }
        if !long { FormDot(n, di, at, i, b, fn[..]); }
        si, i, ni, b := di, 8, 11, 4 * b;
        k, h, lost := 0, [], false;
      } else {
        ghost var x, room, rep := ShortChar(toOem, wc), ni - i, IsReplaced(OemCode(toOem, wc));
        loss, long, i, b := PutChar(toOem, wc, loss, long, i, ni, b, fn, n, di, at);
        k := k + 1;
        if |x| <= room { h, lost := h + x, lost || rep; } else { lost := true; }
      }
    }
  }

  /** Put one character of the name into the field, converted and capitalised. */
  method PutChar(toOem: unit -> unit, wc: unit, loss0: bool, long0: bool, i0: nat, ni: nat, b0: nat, fn: array<byte>,
                 ghost n: seq<unit>, ghost dot: nat, ghost si: nat)
    returns (loss: bool, long: bool, i: nat, b: nat)
    requires IsOem(toOem) && wc > 32 && wc != 46 && i0 < ni && (ni == 8 || ni == 11) && (i0 == 0 ==> ni == 8)
    requires fn.Length == 12
    requires fn[0] != 0 && fn[0] != 46 && (loss0 ==> long0) && b0 < (if ni == 8 then 4 else 16)
    requires si < |n| && n[si] == wc && dot <= |n| && si + 1 != dot
    requires !long0 ==> InForm(n, dot, si, i0, ni, b0, fn[..])
    modifies fn
    ensures 0 < i <= ni && fn[0] != 0 && fn[0] != 46 && b < (if ni == 8 then 4 else 16)
    ensures loss ==> long
    ensures !long ==> InForm(n, dot, si + 1, i, ni, b, fn[..])
    ensures IsPlain(wc) ==> long == long0
    ensures var x := ShortChar(toOem, wc);
            if |x| <= ni - i0 then
              i == i0 + |x| && fn[..] == PutBytes(old(fn[..]), i0, x)
              && (loss <==> loss0 || IsReplaced(OemCode(toOem, wc)))
            else i == ni && fn[..] == old(fn[..]) && loss
  {
    hide InForm;
    loss, long, i, b := loss0, long0, i0, b0;
    var w: nat := wc;
    if w >= 0x80 {
      long := true;
      w := toOem(wc);
    }
    if w >= 0x100 {
      if i >= ni - 1 {
        loss, long, i := true, true, ni;
        return;
      }
      fn[i] := w / 0x100;
      i := i + 1;
    } else if w == 0 || NoShort(w) {
      w, loss, long := 95, true, true;
    } else {
      if !long { FormTakes(n, dot, si, i, ni, b, fn[..]); }
      BitBound(b, ni);
      if IsUpperLetter(w) { b := WithBit(b, 2); }
      else if IsLowerLetter(w) { b, w := WithBit(b, 1), w - 32; }
    }
    ghost var f := fn[..];
    var c: byte := w % 0x100;
    fn[i] := c;
    assert fn[..] == f[i := c];
    i := i + 1;
  }

  lemma BitBound(b: nat, ni: nat)
    requires (ni == 8 || ni == 11) && b < (if ni == 8 then 4 else 16)
    ensures WithBit(b, 1) < (if ni == 8 then 4 else 16) && WithBit(b, 2) < (if ni == 8 then 4 else 16)
  {
  }

  // ---------------------------------------------------------------- create_name

  /** The units of characters that are no control characters are none either. */
  lemma {:induction false} UnitsPrintable(cs: seq<scalar>)
    requires forall k :: 0 <= k < |cs| ==> !Stops(cs[k])
    ensures forall k :: 0 <= k < |Text16(cs)| ==> Text16(cs)[k] >= 32
  {
    if cs != [] {
      UnitsPrintable(cs[1..]);
      var u, v := Utf16(cs[0]), Text16(cs[1..]);
      assert !Stops(cs[0]);
      forall k | 0 <= k < |u + v| ensures (u + v)[k] >= 32 { if k >= |u| { assert (u + v)[k] == v[k - |u|]; } }
    }
  }

  /** The name of a segment: its characters without trailing spaces and dots. */
  function NameOf(g: Segment): seq<unit>
    requires g.Chars?
  {
    Trimmed(Text16(g.cs))
  }

  lemma NameUsable(g: Segment)
    requires Fits(g)
    ensures |NameOf(g)| <= MAX_LFN && 0 !in NameOf(g) && (forall k :: 0 <= k < |NameOf(g)| ==> NameOf(g)[k] >= 32)
    requires forall k :: 0 <= k < |g.cs| ==> !Stops(g.cs[k])
  {
    UnitsPrintable(g.cs);
    forall k | 0 <= k < |NameOf(g)| ensures NameOf(g)[k] >= 32 { assert NameOf(g)[k] == Text16(g.cs)[k]; }
  }

  /** create_name: the next segment of a path as a long name in the buffer and a short name with flags;
      refused when it is no proper string, has an illegal character, is too long or is empty. */
  method CreateName(toOem: unit -> unit, s: seq<byte>, i: nat, lfn: array<unit>, fn: array<byte>)
    returns (res: FResult, next: nat, ghost body: seq<unit>, ghost ext: seq<unit>)
    requires IsOem(toOem) && lfn.Length == 256 && fn.Length == 12 && i <= |s|
    modifies lfn, fn
    ensures res == if Fits(SegmentAt(s, i)) && NameOf(SegmentAt(s, i)) != [] then OK else INVALID_NAME
    ensures res == OK ==> HasName(lfn[..], NameOf(SegmentAt(s, i))) && FirstByteOk(fn[0])
    ensures res == OK ==> fn[11] < 32 && (fn[11] as nat % 2 == 1 ==> fn[11] as nat / 2 % 2 == 1)
    ensures res == OK && fn[11] as nat / 2 % 2 == 0 ==> Is83(NameOf(SegmentAt(s, i)), body, ext, fn[..], fn[11] as nat)
    ensures res == OK ==> (fn[11] as nat / 2 % 2 == 0 <==> InShort(NameOf(SegmentAt(s, i))))
    ensures res == OK ==> NextSegment(s, i) == (next, fn[11] as nat / 4 % 2 == 1)
    ensures res == OK ==>
              fn[..11] == ShortBytes(toOem, NameOf(SegmentAt(s, i)))
              && (fn[11] as nat % 2 == 1 <==> Lossy(toOem, NameOf(SegmentAt(s, i))))
  {
    hide SegmentAt, EndOf, Text16, Is83, InShort, ShortBytes, Lossy;
    next, body, ext := i, [], [];
    var di, wc, p;
    res, di, wc, p := ReadSegment(s, i, lfn);
    if res != OK { return; }
    ghost var g := SegmentAt(s, i);
    SegmentPlain(s, i);
    NameUsable(g);
    var last := wc < 32;
    if !last {
      while IsSeparator(At(s, p))
        invariant p >= i && AfterSeparators(s, p) == AfterSeparators(s, EndOf(s, i) + 1)
        decreases if p <= |s| then |s| - p else 0
      {
        p := p + 1;
      }
      last := At(s, p) < 32;
    }
    next := p;
    di := Snip(lfn, di);
    if di == 0 { return INVALID_NAME, next, [], []; }
    assert lfn[..][..di] == NameOf(g) && lfn[..][di] == 0;
    body, ext := MakeSfn(toOem, lfn, di, NameOf(g), last, fn);
    assert lfn[..][..di] == NameOf(g) && lfn[..][di] == 0;
  }

  lemma SegmentPlain(s: seq<byte>, i: nat)
    ensures SegmentAt(s, i).Chars? ==> forall k :: 0 <= k < |SegmentAt(s, i).cs| ==> !Stops(SegmentAt(s, i).cs[k])
  {
  }
}
