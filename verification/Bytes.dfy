/** Bytes, sectors and the little-endian words the volume is made of. */
module Bytes {
  type byte = x: nat | x < 256
  type dword = x: nat | x < 0x1_0000_0000

  const SECTOR_SIZE: nat := 512
  const DWORD_RANGE: nat := 0x1_0000_0000
  const DWORD_MAX: nat := 0xFFFF_FFFF

  type Sector = s: seq<byte> | |s| == 512 witness seq(512, i => 0)

  /** Unsigned 32-bit subtraction, wrapping as in C. */
  function Sub32(a: dword, b: dword): (r: dword)
    ensures b <= a ==> r == a - b
    ensures a < b ==> r == a - b + DWORD_RANGE
  {
    (a - b) % 0x1_0000_0000
  }

  function LoadWord(s: seq<byte>, o: nat): (w: nat)
    requires o + 2 <= |s|
    ensures w < 0x1_0000
  {
    s[o] as nat + 0x100 * s[o + 1] as nat
  }

  function LoadDword(s: seq<byte>, o: nat): (w: dword)
    requires o + 4 <= |s|
  {
    s[o] as nat + 0x100 * s[o + 1] as nat + 0x1_0000 * s[o + 2] as nat + 0x100_0000 * s[o + 3] as nat
  }

  lemma WordDigits(w: nat)
    ensures w % 0x1_0000 == w % 0x100 + 0x100 * (w / 0x100 % 0x100)
  {
    var b := w / 0x100;
    assert w == 0x100 * b + w % 0x100;
    assert b == 0x100 * (b / 0x100) + b % 0x100;
  }

  function StoreWord(s: seq<byte>, o: nat, w: nat): (r: seq<byte>)
    requires o + 2 <= |s|
    ensures |r| == |s|
    ensures LoadWord(r, o) == w % 0x1_0000
    ensures forall i :: 0 <= i < |s| && (i < o || o + 2 <= i) ==> r[i] == s[i]
  {
    WordDigits(w);
    s[o := w % 0x100][o + 1 := w / 0x100 % 0x100]
  }

  lemma DwordDigits(w: nat)
    ensures w % 0x1_0000_0000
         == w % 0x100 + 0x100 * (w / 0x100 % 0x100) + 0x1_0000 * (w / 0x1_0000 % 0x100)
            + 0x100_0000 * (w / 0x100_0000 % 0x100)
  {
    var b := w / 0x100;
    var c := b / 0x100;
    var d := c / 0x100;
    assert c == w / 0x1_0000;
    assert d == w / 0x100_0000;
    assert d / 0x100 == w / DWORD_RANGE;
  }

  function StoreDword(s: seq<byte>, o: nat, w: nat): (r: seq<byte>)
    requires o + 4 <= |s|
    ensures |r| == |s|
    ensures LoadDword(r, o) == w % 0x1_0000_0000
    ensures forall i :: 0 <= i < |s| && (i < o || o + 4 <= i) ==> r[i] == s[i]
  {
    DwordDigits(w);
    s[o := w % 0x100]
     [o + 1 := w / 0x100 % 0x100]
     [o + 2 := w / 0x1_0000 % 0x100]
     [o + 3 := w / 0x100_0000 % 0x100]
  }

  /** The low byte of a word comes first. */
  lemma LowByteFirst(s: seq<byte>)
    requires |s| == 4
    ensures LoadWord([0x34, 0x12], 0) == 0x1234 && LoadDword([0x78, 0x56, 0x34, 0x12], 0) == 0x1234_5678
    ensures StoreWord(s, 1, 0x9_1234) == [s[0], 0x34, 0x12, s[3]] && StoreDword(s, 0, 0x9_1234_5678) ==
                                                                     [0x78, 0x56, 0x34, 0x12]
  {
  }

  /** st_word on a buffer. */
  method PutWord(a: array<byte>, o: nat, w: nat)
    requires o + 2 <= a.Length
    modifies a
    ensures a[..] == StoreWord(old(a[..]), o, w)
  {
    a[o] := w % 0x100;
    a[o + 1] := w / 0x100 % 0x100;
  }

  /** st_dword on a buffer. */
  method PutDword(a: array<byte>, o: nat, w: nat)
    requires o + 4 <= a.Length
    modifies a
    ensures a[..] == StoreDword(old(a[..]), o, w)
  {
    a[o] := w % 0x100;
    a[o + 1] := w / 0x100 % 0x100;
    a[o + 2] := w / 0x1_0000 % 0x100;
    a[o + 3] := w / 0x100_0000 % 0x100;
  }

  /** Bytes v put at p. */
  function PutBytes(m: seq<byte>, p: nat, v: seq<byte>): (r: seq<byte>)
    requires p + |v| <= |m|
    ensures |r| == |m|
    ensures forall q :: 0 <= q < |m| ==> r[q] == if p <= q < p + |v| then v[q - p] else m[q]
  {
    seq(|m|, q requires 0 <= q < |m| => if p <= q < p + |v| then v[q - p] else m[q])
  }

  lemma PutWithin(m: seq<byte>, p: nat, v: seq<byte>, q: nat, w: seq<byte>)
    requires p + |v| <= |m| && q + |w| <= |v|
    ensures PutBytes(PutBytes(m, p, v), p + q, w) == PutBytes(m, p, PutBytes(v, q, w))
  {
  }

  /** memcpy of v to offset p of a buffer. */
  method Overwrite(a: array<byte>, p: nat, v: seq<byte>)
    requires p + |v| <= a.Length
    modifies a
    ensures a[..] == PutBytes(old(a[..]), p, v)
  {
    forall i | 0 <= i < |v| { a[p + i] := v[i]; }
  }
}
