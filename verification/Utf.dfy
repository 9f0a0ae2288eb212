/** Text as the programming interface has it, UTF-8 (section 3 of RFC 3629), and as the volume has it,
    UTF-16 (section 2 of RFC 2781). */
module Utf {
  import opened Bytes

  type unit = u: nat | u < 0x1_0000

  predicate IsSurrogate(u: nat) { 0xD800 <= u <= 0xDFFF }
  predicate IsSurrogateH(u: nat) { 0xD800 <= u <= 0xDBFF }
  predicate IsSurrogateL(u: nat) { 0xDC00 <= u <= 0xDFFF }

  /** Unicode scalar values. */
  predicate IsScalar(c: nat) { c < 0x11_0000 && !IsSurrogate(c) }

  type scalar = c: nat | IsScalar(c)

  /** The shortest form of c in UTF-8. */
  function Utf8(c: nat): (s: seq<byte>)
    requires c < 0x11_0000
    ensures 1 <= |s| <= 4
  {
    if c < 0x80 then [c]
    else if c < 0x800 then [0xC0 + c / 64, 0x80 + c % 64]
    else if c < 0x1_0000 then [0xE0 + c / 0x1000, 0x80 + c / 64 % 64, 0x80 + c % 64]
    else [0xF0 + c / 0x4_0000, 0x80 + c / 0x1000 % 64, 0x80 + c / 64 % 64, 0x80 + c % 64]
  }

  /** c as one UTF-16 unit, or as two packed in 32 bits. */
  function Packed(c: nat): (p: dword)
    requires c < 0x11_0000
  {
    if c < 0x1_0000 then c
    else 0x1_0000 * (0xD800 + (c - 0x1_0000) / 0x400) + 0xDC00 + (c - 0x1_0000) % 0x400
  }

  function Utf16(c: nat): (u: seq<unit>)
    requires c < 0x11_0000
  {
    if c < 0x1_0000 then [c] else [Packed(c) / 0x1_0000, Packed(c) % 0x1_0000]
  }

  /** U+00E9, U+20AC and U+1F600. */
  lemma CodingSamples()
    ensures Utf8(0xE9) == [0xC3, 0xA9] && Utf8(0x20AC) == [0xE2, 0x82, 0xAC]
    ensures Utf8(0x1F600) == [0xF0, 0x9F, 0x98, 0x80]
    ensures Utf16(0x20AC) == [0x20AC] && Utf16(0x1F600) == [0xD83D, 0xDE00]
  {
  }

  const NO_CHAR: dword := 0xFFFF_FFFF

  /** Packed forms of scalar values are those of a single unit that is no surrogate, and of a high and a
      low surrogate. */
  predicate IsPacked(p: dword) {
    if p < 0x1_0000 then !IsSurrogate(p) else IsSurrogateH(p / 0x1_0000) && IsSurrogateL(p % 0x1_0000)
  }

  /** The scalar value of a packed form. */
  function Unpacked(p: dword): (c: nat)
    requires IsPacked(p)
    ensures IsScalar(c) && Packed(c) == p
  {
    if p < 0x1_0000 then p
    else 0x1_0000 + 0x400 * (p / 0x1_0000 - 0xD800) + (p % 0x1_0000 - 0xDC00)
  }

  lemma PackedIsPacked(c: nat)
    requires IsScalar(c)
    ensures IsPacked(Packed(c)) && Unpacked(Packed(c)) == c
  {
    if c >= 0x1_0000 {
      var d := c - 0x1_0000;
      assert d == 0x400 * (d / 0x400) + d % 0x400 && d / 0x400 < 0x400;
      assert Packed(c) / 0x1_0000 == 0xD800 + d / 0x400;
      assert Packed(c) % 0x1_0000 == 0xDC00 + d % 0x400;
    }
  }

  // ---------------------------------------------------------------- decoding

  /** Byte i of a string that ends with a zero byte, of which s are the bytes before. */
  function At(s: seq<byte>, i: nat): byte { if i < |s| then s[i] else 0 }

  predicate IsTrail(b: byte) { 0x80 <= b < 0xC0 }

  /** Number of bytes that follow a leading byte b >= 0x80; 0 for a byte that leads nothing. */
  function Trailing(b: byte): nat {
    if 0xC0 <= b < 0xE0 then 1 else if 0xE0 <= b < 0xF0 then 2 else if 0xF0 <= b < 0xF8 then 3 else 0
  }

  /** The bits a leading byte contributes. */
  function LeadBits(b: byte): nat {
    if b < 0xE0 then b % 32 else if b < 0xF0 then b % 16 else b % 8
  }

  /** What n more trailing bytes from i on make of the bits acc. */
  function Merged(s: seq<byte>, i: nat, n: nat, acc: nat): (c: int)
    ensures c >= -1
    decreases n
  {
    if n == 0 then acc
    else if !IsTrail(At(s, i)) then -1
    else Merged(s, i + 1, n - 1, acc * 64 + At(s, i) as nat % 64)
  }

  /** The value coded at i, -1 when there is none; overlong forms of 0x80 and more are not rejected. */
  function Coded(s: seq<byte>, i: nat): (c: int)
    ensures c >= -1
  {
    var b := At(s, i);
    if b < 0x80 then b as int
    else if Trailing(b) == 0 then -1
    else
      var c := Merged(s, i + 1, Trailing(b), LeadBits(b));
      if c < 0x80 || IsSurrogate(c) || c >= 0x11_0000 then -1 else c
  }

  /** Bytes it takes. */
  function CodedLength(b: byte): (n: nat)
    ensures 1 <= n <= 4
  {
    if b < 0x80 then 1 else 1 + Trailing(b)
  }

  lemma CodedIsScalar(s: seq<byte>, i: nat)
    ensures Coded(s, i) == -1 || IsScalar(Coded(s, i))
  {
  }

  /** A character of the string is coded within it. */
  lemma {:induction false} MergedWithin(s: seq<byte>, i: nat, n: nat, acc: nat)
    requires Merged(s, i, n, acc) != -1 && i <= |s|
    ensures i + n <= |s|
    decreases n
  {
    if n > 0 { MergedWithin(s, i + 1, n - 1, acc * 64 + At(s, i) as nat % 64); }
  }

  predicate Holds(s: seq<byte>, i: nat, u: seq<byte>) { i + |u| <= |s| && s[i..i + |u|] == u }

  lemma HeldApart(s: seq<byte>, i: nat, u: seq<byte>, v: seq<byte>)
    requires Holds(s, i, u + v)
    ensures Holds(s, i, u) && Holds(s, i + |u|, v)
  {
    var w := s[i..i + |u + v|];
    assert s[i..i + |u|] == w[..|u|] && s[i + |u|..i + |u| + |v|] == w[|u|..];
  }

  lemma HeldByte(s: seq<byte>, i: nat, u: seq<byte>, k: nat)
    requires k < |u|
    ensures Holds(s, i, u) ==> At(s, i + k) == u[k]
  {
    if Holds(s, i, u) { assert s[i..i + |u|][k] == u[k]; }
  }

  lemma MergedOn(s: seq<byte>, i: nat, n: nat, acc: nat, x: nat)
    requires x < 64 && At(s, i) == 0x80 + x && n > 0
    ensures Merged(s, i, n, acc) == Merged(s, i + 1, n - 1, acc * 64 + x)
  {
    assert At(s, i) as nat % 64 == x;
  }

  lemma MergedNone(s: seq<byte>, i: nat, acc: nat)
    ensures Merged(s, i, 0, acc) == acc
  {
  }

  /** The value of 2, 3 and 4 bytes by their payloads. */
  lemma Coded2(s: seq<byte>, i: nat, a: nat, x: nat)
    requires a < 32 && x < 64 && At(s, i) == 0xC0 + a && At(s, i + 1) == 0x80 + x
    ensures Coded(s, i) == if a * 64 + x < 0x80 then -1 else a * 64 + x
  {
    MergedOn(s, i + 1, 1, a, x);
  }

  lemma Coded3(s: seq<byte>, i: nat, a: nat, x: nat, y: nat)
    requires a < 16 && x < 64 && y < 64 && At(s, i) == 0xE0 + a && At(s, i + 1) == 0x80 + x && At(s, i + 2) == 0x80 + y
    ensures var c := (a * 64 + x) * 64 + y;
            Coded(s, i) == if c < 0x80 || IsSurrogate(c) then -1 else c
  {
    hide Merged;
    MergedOn(s, i + 1, 2, a, x);
    MergedOn(s, i + 2, 1, a * 64 + x, y);
    MergedNone(s, i + 3, (a * 64 + x) * 64 + y);
  }

  lemma Coded4(s: seq<byte>, i: nat, a: nat, x: nat, y: nat, z: nat)
    requires a < 8 && x < 64 && y < 64 && z < 64
    requires At(s, i) == 0xF0 + a && At(s, i + 1) == 0x80 + x && At(s, i + 2) == 0x80 + y && At(s, i + 3) == 0x80 + z
    ensures var c := ((a * 64 + x) * 64 + y) * 64 + z;
            Coded(s, i) == if c < 0x80 || IsSurrogate(c) || c >= 0x11_0000 then -1 else c
  {
    hide Merged;
    MergedOn(s, i + 1, 3, a, x);
    MergedOn(s, i + 2, 2, a * 64 + x, y);
    MergedOn(s, i + 3, 1, (a * 64 + x) * 64 + y, z);
    MergedNone(s, i + 4, ((a * 64 + x) * 64 + y) * 64 + z);
  }

  /** The bits of c in groups of six. */
  lemma Sixes(c: nat)
    ensures c / 64 * 64 + c % 64 == c
    ensures (c / 0x1000 * 64 + c / 64 % 64) * 64 + c % 64 == c
    ensures ((c / 0x4_0000 * 64 + c / 0x1000 % 64) * 64 + c / 64 % 64) * 64 + c % 64 == c
  {
    var d := c / 64;
    var e := d / 64;
    assert e == c / 0x1000 && d == e * 64 + d % 64;
    assert e / 64 == c / 0x4_0000 && e == e / 64 * 64 + e % 64;
  }

  /** Groups of six bits put together and taken apart. */
  lemma SixesApart(a: nat, x: nat, y: nat, z: nat)
    requires x < 64 && y < 64 && z < 64
    ensures var c := ((a * 64 + x) * 64 + y) * 64 + z;
            c % 64 == z && c / 64 % 64 == y && c / 0x1000 % 64 == x && c / 0x4_0000 == a
            && c / 64 == (a * 64 + x) * 64 + y && c / 0x1000 == a * 64 + x
  {
    var b := a * 64 + x;
    var d := b * 64 + y;
    var c := d * 64 + z;
    assert c / 64 == d && d / 64 == b && b / 64 == a;
    assert c / 0x1000 == d / 64 && c / 0x4_0000 == b / 64;
  }

  /** The shortest form decodes to what it encodes. */
  lemma DecodesEncoded(s: seq<byte>, i: nat, c: nat)
    requires IsScalar(c) && Holds(s, i, Utf8(c))
    ensures Coded(s, i) == c && CodedLength(At(s, i)) == |Utf8(c)|
  {
    var u := Utf8(c);
    Sixes(c);
    HeldByte(s, i, u, 0);
    if c >= 0x80 { HeldByte(s, i, u, 1); }
    if c >= 0x800 { HeldByte(s, i, u, 2); }
    if c >= 0x1_0000 { HeldByte(s, i, u, 3); }
    if c < 0x80 {
    } else if c < 0x800 {
      Coded2(s, i, c / 64, c % 64);
    } else if c < 0x1_0000 {
      Coded3(s, i, c / 0x1000, c / 64 % 64, c % 64);
    } else {
      Coded4(s, i, c / 0x4_0000, c / 0x1000 % 64, c / 64 % 64, c % 64);
    }
  }

  /** What decodes is at least as long as the shortest form, and is it exactly when it is as long. */
  lemma EncodesDecoded(s: seq<byte>, i: nat)
    requires Coded(s, i) != -1 && i < |s|
    ensures IsScalar(Coded(s, i))
    ensures i + CodedLength(s[i]) <= |s|
    ensures |Utf8(Coded(s, i))| <= CodedLength(s[i])
    ensures |Utf8(Coded(s, i))| == CodedLength(s[i]) <==> Holds(s, i, Utf8(Coded(s, i)))
  {
    var b, c := s[i], Coded(s, i);
    if b < 0x80 {
      assert s[i..i + 1] == [s[i]];
    } else {
      var n := Trailing(b);
      MergedWithin(s, i + 1, n, LeadBits(b));
      Trails(s, i + 1, n, LeadBits(b));
      if n == 1 { Encodes2(s, i, b - 0xC0, s[i + 1] - 0x80); }
      else if n == 2 { Encodes3(s, i, b - 0xE0, s[i + 1] - 0x80, s[i + 2] - 0x80); }
      else { Encodes4(s, i, b - 0xF0, s[i + 1] - 0x80, s[i + 2] - 0x80, s[i + 3] - 0x80); }
    }
  }

  /** A form of U+0080 that is not the shortest is decoded. */
  lemma OverlongDecodes()
    ensures Coded([0xE0, 0x82, 0x80], 0) == 0x80 && Utf8(0x80) == [0xC2, 0x80]
  {
    Coded3([0xE0, 0x82, 0x80], 0, 0, 2, 0);
  }

  lemma Trails(s: seq<byte>, i: nat, n: nat, acc: nat)
    requires Merged(s, i, n, acc) != -1
    ensures forall k :: i <= k < i + n ==> IsTrail(At(s, k))
    decreases n
  {
    if n > 0 { Trails(s, i + 1, n - 1, acc * 64 + At(s, i) as nat % 64); }
  }

  lemma Encodes2(s: seq<byte>, i: nat, a: nat, x: nat)
    requires Coded(s, i) != -1 && i + 2 <= |s| && a < 32 && x < 64 && s[i] == 0xC0 + a && s[i + 1] == 0x80 + x
    ensures Utf8(Coded(s, i)) == s[i..i + 2]
  {
    Coded2(s, i, a, x);
    assert s[i..i + 2] == [s[i], s[i + 1]];
  }

  lemma Encodes3(s: seq<byte>, i: nat, a: nat, x: nat, y: nat)
    requires Coded(s, i) != -1 && i + 3 <= |s| && a < 16 && x < 64 && y < 64
    requires s[i] == 0xE0 + a && s[i + 1] == 0x80 + x && s[i + 2] == 0x80 + y
    ensures |Utf8(Coded(s, i))| <= 3
    ensures |Utf8(Coded(s, i))| == 3 <==> Holds(s, i, Utf8(Coded(s, i)))
  {
    Coded3(s, i, a, x, y);
    var c := Coded(s, i);
    SixesApart(0, a, x, y);
    if c >= 0x800 {
      assert s[i..i + 3] == [s[i], s[i + 1], s[i + 2]] == Utf8(c);
    } else {
      HeldByte(s, i, Utf8(c), 0);
    }
  }

  lemma Encodes4(s: seq<byte>, i: nat, a: nat, x: nat, y: nat, z: nat)
    requires Coded(s, i) != -1 && i + 4 <= |s| && a < 8 && x < 64 && y < 64 && z < 64
    requires s[i] == 0xF0 + a && s[i + 1] == 0x80 + x && s[i + 2] == 0x80 + y && s[i + 3] == 0x80 + z
    ensures |Utf8(Coded(s, i))| == 4 <==> Holds(s, i, Utf8(Coded(s, i)))
  {
    Coded4(s, i, a, x, y, z);
    var c := Coded(s, i);
    SixesApart(a, x, y, z);
    if c >= 0x1_0000 {
      assert s[i..i + 4] == [s[i], s[i + 1], s[i + 2], s[i + 3]] == Utf8(c);
    } else {
      HeldByte(s, i, Utf8(c), 0);
    }
  }

  // ---------------------------------------------------------------- one character

  /** tchar2uni: the next character of a string in UTF-16, packed, and where the one after it starts. */
  method TcharToUni(s: seq<byte>, i: nat) returns (uc: dword, next: nat)
    ensures Coded(s, i) == -1 ==> uc == NO_CHAR && next == i
    ensures Coded(s, i) != -1 ==> uc == Packed(Coded(s, i)) && next == i + CodedLength(At(s, i))
  {
    var p := i;
    var b := At(s, p);
    p := p + 1;
    var c: nat := b;
    if c >= 0x80 {
      var nf: nat := Trailing(b);
      if nf == 0 { return NO_CHAR, i; }
      c := LeadBits(b);
      ghost var lead, m := b, Merged(s, i + 1, nf, c);
      while nf != 0
        invariant 0 <= nf && p + nf == i + CodedLength(lead) && Merged(s, p, nf, c) == m
        decreases nf
      {
        b := At(s, p);
        if !(0x80 <= b < 0xC0) { return NO_CHAR, i; }
        c := c * 64 + b as nat % 64;
        p, nf := p + 1, nf - 1;
      }
      if c < 0x80 || IsSurrogate(c) || c >= 0x11_0000 { return NO_CHAR, i; }
      if c >= 0x1_0000 {
        return 0xD800_DC00 + (c - 0x1_0000) / 0x400 % 0x400 * 0x1_0000 + c % 0x400, p;
      }
    }
    return c, p;
  }

  /** put_utf: a packed character in UTF-8 at offset off of a buffer with room for szb bytes; 0 when it
      does not fit or is not a character. */
  method PutUtf(chr: dword, buf: array<byte>, off: nat, szb: nat) returns (n: nat)
    requires off + szb <= buf.Length
    modifies buf
    ensures n == if IsPacked(chr) && |Utf8(Unpacked(chr))| <= szb then |Utf8(Unpacked(chr))| else 0
    ensures n > 0 ==> buf[..] == PutBytes(old(buf[..]), off, Utf8(Unpacked(chr)))
    ensures n == 0 ==> buf[..] == old(buf[..])
  {
    hide PutBytes;
    if chr >= 0x1_0000 { PairLength(chr); }
    if chr < 0x80 {
      if szb < 1 { return 0; }
      Overwrite(buf, off, [chr]);
      return 1;
    }
    if chr < 0x800 {
      if szb < 2 { return 0; }
      Overwrite(buf, off, [0xC0 + chr / 64 % 32, 0x80 + chr % 64]);
      return 2;
    }
    if chr < 0x1_0000 {
      if szb < 3 || IsSurrogate(chr) { return 0; }
      Overwrite(buf, off, [0xE0 + chr / 0x1000 % 16, 0x80 + chr / 64 % 64, 0x80 + chr % 64]);
      return 3;
    }
    n := PutPair(chr, buf, off, szb);
  }

  /** Its last part: a surrogate pair. */
  method PutPair(chr: dword, buf: array<byte>, off: nat, szb: nat) returns (n: nat)
    requires off + szb <= buf.Length && chr >= 0x1_0000
    modifies buf
    ensures n == if IsPacked(chr) && 4 <= szb then 4 else 0
    ensures n > 0 ==> buf[..] == PutBytes(old(buf[..]), off, Utf8(Unpacked(chr))) && |Utf8(Unpacked(chr))| == 4
    ensures n == 0 ==> buf[..] == old(buf[..])
  {
    hide PutBytes;
    if szb < 4 { return 0; }
    var hc := Sub32(chr / 0x1_0000 * 0x1_0000, 0xD800_0000) / 64;
    var lc := Sub32(chr % 0x1_0000, 0xDC00);
    HighBits(chr);
    if hc >= 0x10_0000 || lc >= 0x400 { return 0; }
    var c := hc + lc + 0x1_0000;
    assert c == Unpacked(chr);
    Overwrite(buf, off, [0xF0 + c / 0x4_0000 % 8, 0x80 + c / 0x1000 % 64, 0x80 + c / 64 % 64, 0x80 + c % 64]);
    return 4;
  }

  lemma PairLength(chr: dword)
    requires chr >= 0x1_0000
    ensures IsPacked(chr) ==> |Utf8(Unpacked(chr))| == 4
  {
  }

  /** The tests for the halves of a surrogate pair by wrapped differences. */
  lemma HighBits(chr: dword)
    ensures Sub32(chr / 0x1_0000 * 0x1_0000, 0xD800_0000) / 64 < 0x10_0000 <==> IsSurrogateH(chr / 0x1_0000)
    ensures IsSurrogateH(chr / 0x1_0000) ==>
              Sub32(chr / 0x1_0000 * 0x1_0000, 0xD800_0000) / 64 == 0x400 * (chr / 0x1_0000 - 0xD800)
    ensures Sub32(chr % 0x1_0000, 0xDC00) < 0x400 <==> IsSurrogateL(chr % 0x1_0000)
  {
    var h := chr / 0x1_0000;
    if h >= 0xD800 { assert Sub32(h * 0x1_0000, 0xD800_0000) == (h - 0xD800) * 0x1_0000; }
    else { assert Sub32(h * 0x1_0000, 0xD800_0000) == (h - 0xD800) * 0x1_0000 + 0x1_0000_0000; }
  }
}
