/** Bytes as eight bits: rotations and single bits in terms of numbers. */
module Bits {
  import opened Bytes

  /** The number that eight bits stand for. */
  function Number(x: bv8): byte { x as nat }

  /** The eight bits of a byte, found by counting. */
  function BitsOf(b: byte): bv8 { if b == 0 then 0 else BitsOf(b - 1) + 1 }

  /** A byte rotated to the right by one bit. */
  function Turned(s: byte): byte { s / 2 + 128 * (s % 2) }

  lemma OneMore(s: bv8)
    ensures Number(s + 1) == if s == 255 then 0 else Number(s) + 1
  {
  }

  lemma OneLess(s: bv8)
    ensures s != 0 ==> Number(s - 1) == Number(s) - 1
  {
  }

  lemma ShiftOne(s: bv8, c: bv8)
    ensures s + c == (s + 1) + (c - 1) && s + 0 == s
  {
  }

  lemma Extremes()
    ensures Number(0) == 0 && Number(255) == 255
  {
  }

  /** Adding on eight bits is adding modulo 256. */
  lemma {:induction false} AddBits(s: bv8, c: bv8)
    ensures Number(s + c) == (Number(s) + Number(c)) % 256
    decreases Number(c)
  {
    hide Number;
    Extremes();
    ShiftOne(s, c);
    if c != 0 {
      OneMore(s);
      OneLess(c);
      AddBits(s + 1, c - 1);
    }
  }

  lemma RightBits(s: bv8)
    ensures (s >> 1) | (s << 7) == (s >> 1) + (s << 7) && Number(s >> 1) == Number(s) / 2
  {
  }

  lemma LeftBit(s: bv8)
    ensures Number(s << 7) == 128 * (Number(s) % 2)
  {
  }

  lemma TurnBits(s: bv8)
    ensures Number((s >> 1) | (s << 7)) == Turned(Number(s))
  {
    hide Number;
    RightBits(s);
    LeftBit(s);
    AddBits(s >> 1, s << 7);
  }

  /** A rotation loses nothing. */
  lemma TurnedApart(s: byte, t: byte)
    ensures Turned(s) == Turned(t) ==> s == t
  {
  }

  /** Of two sums modulo 256 that differ in one term only. */
  lemma SumsModulo(x: byte, y: byte, b: byte, c: byte)
    requires (x == y) != (b == c)
    ensures (x as nat + b as nat) % 256 != (y as nat + c as nat) % 256
  {
  }

  lemma HalfAndLow(s: byte, c: byte)
    ensures (Turned(s) + c) % 256 == (s / 2 + 128 * s + c) % 256
  {
    var h := s / 2;
    assert s == 2 * h + s % 2;
    assert s / 2 + 128 * s + c == (h + 128 * (s % 2) + c) + 256 * h;
    assert (h + 128 * (s % 2) + c + 256 * h) % 256 == (h + 128 * (s % 2) + c) % 256;
  }

  /** Rotating to the right by one bit and adding. */
  lemma RotateBits(s: bv8, c: bv8)
    ensures Number(((s >> 1) | (s << 7)) + c) == (Number(s) / 2 + 128 * Number(s) + Number(c)) % 256
  {
    hide Number, Turned;
    TurnBits(s);
    AddBits((s >> 1) | (s << 7), c);
    HalfAndLow(Number(s), Number(c));
  }

  lemma {:induction false} NumberOfBits(b: byte)
    ensures Number(BitsOf(b)) == b
  {
    hide Number;
    Extremes();
    if b > 0 {
      NumberOfBits(b - 1);
      OneMore(BitsOf(b - 1));
    }
  }

  /** Setting bit 5 of a byte: that bit is one afterwards and the seven others stay. */
  lemma SetBit5(b: bv8)
    ensures b | 0x20 == (b / 64) * 64 + 32 + b % 32
    ensures (b | 0x20) & 0x20 == 0x20 && (b | 0x20) & 0xDF == b & 0xDF
  {
  }
}
