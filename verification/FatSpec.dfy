/** The file allocation table: its bytes, and the values of 12, 16 or 28 bits packed into them. */
module FatSpec {
  import opened Bytes
  import opened Geometry

  const EOC: nat := 0xFFFF_FFFF
  const FAT_INT_ERR: nat := 1
  const FAT_DISK_ERR: nat := 0xFFFF_FFFF

  /** The bits of v an entry keeps. */
  function Clip(t: FatType, v: nat): (r: nat)
    ensures r < EntryRange(t)
    ensures v < EntryRange(t) ==> r == v
  {
    match t case FAT12 => v % 0x1000 case FAT16 => v % 0x1_0000 case FAT32 => v % 0x1000_0000
  }

  /** The end-of-chain mark reads back as a value beyond every cluster number. */
  lemma EndMark(g: Geometry, end: int)
    requires FatLaid(g, end)
    ensures g.nFatent <= Clip(g.fsType, EOC)
    ensures g.nFatent <= EntryRange(g.fsType)
  {
  }

  // ---------------------------------------------------------------- the bytes of the first FAT

  /** The first FAT of logical disk l as one sequence of bytes. */
  ghost function Image(g: Geometry, l: seq<Sector>): (m: seq<byte>)
    requires HasFat(g, |l|)
    ensures |m| == 512 * g.fsize
  {
    seq(512 * g.fsize, p requires 0 <= p < 512 * g.fsize => l[g.fatbase + p / 512][p % 512])
  }

  /** Nothing but FAT sectors differs. */
  ghost predicate SameButFat(g: Geometry, a: seq<Sector>, b: seq<Sector>) {
    |a| == |b| && forall s :: 0 <= s < |a| && !g.InFat(s) && !g.InMirror(s) ==> a[s] == b[s]
  }

  /** FAT sector ws replaced by u, in both copies. */
  ghost function PutSector(g: Geometry, l: seq<Sector>, ws: nat, u: Sector): (r: seq<Sector>)
    requires HasFat(g, |l|) && g.InFat(ws)
    ensures SameButFat(g, l, r)
    ensures forall i :: 0 <= i < |l| && i != ws && !g.InMirror(i) ==> r[i] == l[i]
    ensures r[ws] == u
    ensures forall i {:trigger g.InMirror(i)} :: g.InMirror(i) ==> r[i] == if i == ws + g.fsize then u else l[i]
  {
    if g.nFats == 2 then l[ws := u][ws + g.fsize := u] else l[ws := u]
  }

  /** Changing bytes within one FAT sector changes those bytes of the FAT. */
  lemma PutSectorImage(g: Geometry, l: seq<Sector>, ws: nat, u: Sector, off: nat, v: seq<byte>)
    requires HasFat(g, |l|) && g.InFat(ws) && off + |v| <= 512
    requires u == PutBytes(l[ws], off, v)
    ensures Image(g, PutSector(g, l, ws, u)) == PutBytes(Image(g, l), 512 * (ws - g.fatbase) + off, v)
  {
    var b, p := PutSector(g, l, ws, u), 512 * (ws - g.fatbase) + off;
    forall q | 0 <= q < 512 * g.fsize
      ensures Image(g, b)[q] == if p <= q < p + |v| then v[q - p] else Image(g, l)[q]
    {
      if g.fatbase + q / 512 == ws { assert q == 512 * (ws - g.fatbase) + q % 512; }
    }
  }

  // ---------------------------------------------------------------- entries

  /** Offset of the first byte of entry c. */
  function EntryOffset(t: FatType, c: nat): nat {
    match t
    case FAT12 => c + c / 2
    case FAT16 => 2 * c
    case FAT32 => 4 * c
  }

  /** Number of bytes that hold a part of an entry. */
  function EntryWidth(t: FatType): nat {
    if t == FAT32 then 4 else 2
  }

  /** A FAT of type t with m bytes has room for entry c. */
  predicate Holds(t: FatType, m: seq<byte>, c: nat) {
    EntryOffset(t, c) + EntryWidth(t) <= |m|
  }

  lemma EntryFits(t: FatType, c: nat, n: nat)
    requires c < n
    ensures EntryOffset(t, c) + EntryWidth(t) <= FatBytes(t, n)
  {
    if t == FAT12 {
      var h := n / 2;
      assert n == 2 * h + n % 2 && n * 3 / 2 == 3 * h + n % 2;
      assert c / 2 <= h && (c / 2 == h ==> n % 2 == 1 && c == 2 * h);
    }
  }

  /** Every get_fat and put_fat access for a legal cluster stays in the first FAT. */
  lemma EntryInFat(g: Geometry, end: int, c: nat)
    requires HasFat(g, end) && c < g.nFatent
    ensures EntryOffset(g.fsType, c) + EntryWidth(g.fsType) <= 512 * g.fsize
  {
    EntryFits(g.fsType, c, g.nFatent);
  }

  /** The 12 bits of entry c in the two bytes that hold it. */
  function Value12(c: nat, b0: byte, b1: byte): (v: nat)
    ensures v < 0x1000
  {
    var w := b0 as nat + 0x100 * b1 as nat;
    if c % 2 == 1 then w / 16 else w % 0x1000
  }

  /** The low 28 bits of the 32-bit word at offset o. */
  function Load28(s: seq<byte>, o: nat): (w: nat)
    requires o + 4 <= |s|
    ensures w < 0x1000_0000
  {
    s[o] as nat + 0x100 * s[o + 1] as nat + 0x1_0000 * s[o + 2] as nat + 0x100_0000 * (s[o + 3] as nat % 16)
  }

  lemma Load28IsMask(s: seq<byte>, o: nat)
    requires o + 4 <= |s|
    ensures Load28(s, o) == LoadDword(s, o) % 0x1000_0000
  {
  }

  /** Value of entry c: 12, 16 or 28 bits. */
  function Entry(t: FatType, m: seq<byte>, c: nat): (v: nat)
    requires Holds(t, m, c)
    ensures v < EntryRange(t)
  {
    match t
    case FAT12 => Value12(c, m[c + c / 2], m[c + c / 2 + 1])
    case FAT16 => LoadWord(m, 2 * c)
    case FAT32 => Load28(m, 4 * c)
  }

  /** Two 12-bit entries share a byte: the first has its low four bits, the second its high four. Wider entries
      have their low byte first. */
  lemma EntrySamples()
    ensures var m: seq<byte> := [0xF8, 0xFF, 0xFF, 0x03, 0x40, 0x00];
            Entry(FAT12, m, 0) == 0xFF8 && Entry(FAT12, m, 1) == 0xFFF
            && Entry(FAT12, m, 2) == 0x003 && Entry(FAT12, m, 3) == 0x004
    ensures Entry(FAT16, [0xF8, 0xFF, 0x34, 0x12], 0) == 0xFFF8 && Entry(FAT16, [0xF8, 0xFF, 0x34, 0x12], 1) == 0x1234
    ensures Entry(FAT32, [0x78, 0x56, 0x34, 0xA2], 0) == 0x0234_5678
  {
  }

  /** The four upper bits of a FAT32 entry, which are not part of its value. */
  function TopBits(t: FatType, m: seq<byte>, c: nat): (v: nat)
    requires Holds(t, m, c)
  {
    if t == FAT32 then m[4 * c + 3] as nat / 16 else 0
  }

  /** f lists the values of the first n entries of FAT m. */
  ghost predicate Decodes(t: FatType, m: seq<byte>, f: seq<nat>, n: nat)
    requires n <= |f|
  {
    n > 0 ==> Holds(t, m, n - 1) && f[n - 1] == Entry(t, m, n - 1) && Decodes(t, m, f, n - 1)
  }

  lemma {:induction false} DecodesEach(t: FatType, m: seq<byte>, f: seq<nat>, n: nat)
    requires n <= |f|
    ensures Decodes(t, m, f, n) <==> forall c :: 0 <= c < n ==> Holds(t, m, c) && f[c] == Entry(t, m, c)
  {
    if n > 0 { DecodesEach(t, m, f, n - 1); }
  }

  lemma SameFat(t: FatType, m: seq<byte>, f: seq<nat>, f': seq<nat>)
    requires |f| == |f'| && Decodes(t, m, f, |f|) && Decodes(t, m, f', |f|)
    ensures f == f'
  {
    DecodesEach(t, m, f, |f|);
    DecodesEach(t, m, f', |f|);
  }

  /** The FAT of a volume as the sequence of its values. */
  ghost function FatMap(g: Geometry, l: seq<Sector>): (f: seq<nat>)
    requires HasFat(g, |l|)
    ensures |f| == g.nFatent && Decodes(g.fsType, Image(g, l), f, g.nFatent)
  {
    var m := Image(g, l);
    var f := seq(g.nFatent, c requires 0 <= c < g.nFatent => (EntryInFat(g, |l|, c); Entry(g.fsType, m, c)));
    assert Decodes(g.fsType, m, f, g.nFatent) by {
      forall c | 0 <= c < g.nFatent
        ensures Holds(g.fsType, m, c) && f[c] == Entry(g.fsType, m, c)
      {
        EntryInFat(g, |l|, c);
      }
      DecodesEach(g.fsType, m, f, g.nFatent);
    }
    f
  }

  /** The 16-bit or 32-bit word in the window is the one in the FAT. */
  lemma WordAt(g: Geometry, l: seq<Sector>, c: nat)
    requires HasFat(g, |l|) && 2 * c + 2 <= 512 * g.fsize
    ensures 2 * c % 512 + 2 <= 512
    ensures LoadWord(l[g.fatbase + 2 * c / 512], 2 * c % 512) == LoadWord(Image(g, l), 2 * c)
  {
    WordInSector(c);
  }

  lemma DwordAt(g: Geometry, l: seq<Sector>, c: nat)
    requires HasFat(g, |l|) && 4 * c + 4 <= 512 * g.fsize
    ensures 4 * c % 512 + 4 <= 512
    ensures Load28(l[g.fatbase + 4 * c / 512], 4 * c % 512) == Load28(Image(g, l), 4 * c)
    ensures l[g.fatbase + 4 * c / 512][4 * c % 512 + 3] == Image(g, l)[4 * c + 3]
  {
    DwordInSector(c);
  }

  // ---------------------------------------------------------------- writing an entry

  /** What writing entry c does to a FAT: its value becomes the low bits of val (when done; a 12-bit
      entry may be left half written), every other entry and all top bits stay. */
  ghost predicate Written(t: FatType, a: seq<byte>, b: seq<byte>, n: nat, c: nat, val: nat, done: bool) {
    |a| == |b| && forall k :: 0 <= k < n && Holds(t, a, k) ==>
      TopBits(t, b, k) == TopBits(t, a, k)
      && (k != c ==> Entry(t, b, k) == Entry(t, a, k))
      && (k == c && done ==> Entry(t, b, k) == Clip(t, val))
  }

  lemma DecodesWritten(t: FatType, a: seq<byte>, b: seq<byte>, f: seq<nat>, f': seq<nat>, c: nat, val: nat, done: bool)
    requires c < |f| == |f'| && Decodes(t, a, f, |f|) && Decodes(t, b, f', |f|) && Written(t, a, b, |f|, c, val, done)
    ensures done ==> f' == f[c := Clip(t, val)]
    ensures forall k :: 0 <= k < |f| && k != c ==> f'[k] == f[k]
  {
    DecodesEach(t, a, f, |f|);
    DecodesEach(t, b, f', |f|);
  }

  /** Entries of different clusters overlap in no byte, except that 12-bit neighbours share one. */
  lemma EntriesApart(t: FatType, c: nat, k: nat)
    requires k < c
    ensures t != FAT12 || c % 2 == 0 ==> EntryOffset(t, k) + EntryWidth(t) <= EntryOffset(t, c)
    ensures t == FAT12 && c % 2 == 1 ==> EntryOffset(t, k) + 2 <= EntryOffset(t, c) + 1
    ensures t == FAT12 && c % 2 == 1 && k < c - 1 ==> EntryOffset(t, k) + 2 <= EntryOffset(t, c)
  {
  }

  // ---- 12 bits

  /** The byte put_fat leaves in the first or second byte of 12-bit entry c, given what was there. */
  function NewByte12(c: nat, was: byte, val: nat, second: bool): byte {
    if second then
      if c % 2 == 1 then val / 16 % 0x100 else was / 16 * 16 + val / 0x100 % 16
    else
      if c % 2 == 1 then was % 16 + 16 * (val % 16) else val % 0x100
  }

  lemma DigitsOdd(v: nat)
    ensures v % 0x1000 == v % 16 + 16 * (v / 16 % 0x100)
  {
    var w := v / 16;
    assert v == 16 * w + v % 16;
    assert w == 0x100 * (w / 0x100) + w % 0x100;
  }

  lemma DigitsEven(v: nat)
    ensures v % 0x1000 == v % 0x100 + 0x100 * (v / 0x100 % 16)
  {
    var w := v / 0x100;
    assert v == 0x100 * w + v % 0x100;
    assert w == 16 * (w / 16) + w % 16;
  }

  /** An odd entry takes the high half of its first byte and all of its second. */
  lemma PackOdd(r: nat, lo: nat, mid: nat)
    requires r < 16 && lo < 16
    ensures (r + 16 * lo + 0x100 * mid) / 16 == lo + 16 * mid
  {
  }

  /** An even entry takes all of its first byte and the low half of its second. */
  lemma PackEven(lo: nat, hi: nat, t: nat)
    requires lo < 0x100 && hi < 16
    ensures (lo + 0x100 * (t * 16 + hi)) % 0x1000 == lo + 0x100 * hi
  {
    assert lo + 0x100 * (t * 16 + hi) == 0x1000 * t + (lo + 0x100 * hi);
  }

  lemma Put12(c: nat, b0: byte, b1: byte, val: nat)
    ensures Value12(c, NewByte12(c, b0, val, false), NewByte12(c, b1, val, true)) == val % 0x1000
  {
    if c % 2 == 1 {
      DigitsOdd(val);
      PackOdd(b0 as nat % 16, val % 16, val / 16 % 0x100);
    } else {
      DigitsEven(val);
      PackEven(val % 0x100, val / 0x100 % 16, b1 as nat / 16);
    }
  }

  lemma NibblesApart(b: byte)
    ensures b as nat == b as nat % 16 + 16 * (b as nat / 16)
  {
  }

  /** Writing entry c leaves the half of the shared byte that belongs to its neighbour. */
  lemma Put12After(c: nat, was: byte, other: byte, val: nat)
    requires c % 2 == 0
    ensures Value12(c + 1, NewByte12(c, was, val, true), other) == Value12(c + 1, was, other)
  {
    var r, h: nat := val / 0x100 % 16, was as nat / 16;
    PackOdd(was as nat % 16, h, other);
    PackOdd(r, h, other);
    NibblesApart(was);
    calc {
      Value12(c + 1, NewByte12(c, was, val, true), other);
      (r + 16 * h + 0x100 * other as nat) / 16;
      (was as nat % 16 + 16 * h + 0x100 * other as nat) / 16;
      Value12(c + 1, was, other);
    }
  }

  lemma Put12Before(c: nat, was: byte, other: byte, val: nat)
    requires c % 2 == 1
    ensures Value12(c - 1, other, NewByte12(c, was, val, false)) == Value12(c - 1, other, was)
  {
    PackEven(other, was as nat % 16, was as nat / 16);
    PackEven(other, was as nat % 16, val % 16);
  }

  /** A FAT with the first byte of 12-bit entry c rewritten, or both. */
  function Put12Bytes(m: seq<byte>, c: nat, val: nat, both: bool): (r: seq<byte>)
    requires Holds(FAT12, m, c)
    ensures |r| == |m|
  {
    var p := c + c / 2;
    var r := PutBytes(m, p, [NewByte12(c, m[p], val, false)]);
    if both then PutBytes(r, p + 1, [NewByte12(c, r[p + 1], val, true)]) else r
  }

  lemma Entry12Put(m: seq<byte>, c: nat, val: nat, both: bool, k: nat)
    requires Holds(FAT12, m, c) && Holds(FAT12, m, k)
    ensures k != c ==> Entry(FAT12, Put12Bytes(m, c, val, both), k) == Entry(FAT12, m, k)
    ensures both ==> Entry(FAT12, Put12Bytes(m, c, val, both), c) == val % 0x1000
  {
    hide Value12, NewByte12;
    var p, q := c + c / 2, k + k / 2;
    if both { Put12(c, m[p], m[p + 1], val); }
    if k == c + 1 && c % 2 == 0 {
      Put12After(c, m[p + 1], m[q + 1], val);
    } else if k == c - 1 && c % 2 == 1 {
      Put12Before(c, m[p], m[q], val);
    } else if k < c {
      EntriesApart(FAT12, c, k);
    } else if c < k {
      EntriesApart(FAT12, k, c);
    }
  }

  lemma Written12(m: seq<byte>, n: nat, c: nat, val: nat, both: bool)
    requires Holds(FAT12, m, c)
    ensures Written(FAT12, m, Put12Bytes(m, c, val, both), n, c, val, both)
  {
    forall k | 0 <= k < n && Holds(FAT12, m, k)
      ensures k != c ==> Entry(FAT12, Put12Bytes(m, c, val, both), k) == Entry(FAT12, m, k)
      ensures both ==> Entry(FAT12, Put12Bytes(m, c, val, both), c) == val % 0x1000
    {
      Entry12Put(m, c, val, both, k);
    }
  }

  // ---- 16 and 28 bits

  /** A 16-bit or 32-bit entry never straddles two sectors. */
  lemma WordInSector(c: nat)
    ensures 2 * c / 512 == c / 256 == (2 * c + 1) / 512
    ensures 2 * c % 512 + 1 == (2 * c + 1) % 512
  {
  }

  lemma DwordInSector(c: nat)
    ensures 4 * c / 512 == c / 128 == (4 * c + 1) / 512 == (4 * c + 2) / 512 == (4 * c + 3) / 512
    ensures 4 * c % 512 + 1 == (4 * c + 1) % 512
    ensures 4 * c % 512 + 2 == (4 * c + 2) % 512
    ensures 4 * c % 512 + 3 == (4 * c + 3) % 512
  {
  }

  function Bytes16(val: nat): (v: seq<byte>)
    ensures |v| == 2 && LoadWord(v, 0) == val % 0x1_0000
  {
    StoreWord([0, 0], 0, val)
  }

  lemma Written16(m: seq<byte>, n: nat, c: nat, val: nat)
    requires Holds(FAT16, m, c)
    ensures Written(FAT16, m, PutBytes(m, 2 * c, Bytes16(val)), n, c, val, true)
  {
    forall k | 0 <= k < n && Holds(FAT16, m, k)
      ensures Entry(FAT16, PutBytes(m, 2 * c, Bytes16(val)), k) == if k == c then val % 0x1_0000 else Entry(FAT16, m, k)
    {
      if k < c { EntriesApart(FAT16, c, k); } else if c < k { EntriesApart(FAT16, k, c); }
    }
  }

  /** The four bytes put_fat stores for val over an entry whose last byte was `last`: the upper four
      bits stay. */
  function Bytes32(val: nat, last: byte): (v: seq<byte>)
    ensures |v| == 4
  {
    var w := val % 0x1000_0000;
    [w % 0x100, w / 0x100 % 0x100, w / 0x1_0000 % 0x100, w / 0x100_0000 + last / 16 * 16]
  }

  /** They are the bytes of the 32-bit word the code composes. */
  lemma Bytes32IsWord(val: nat, was: dword, last: byte)
    requires was / 0x100_0000 == last
    ensures LoadDword(Bytes32(val, last), 0) == val % 0x1000_0000 + was / 0x1000_0000 * 0x1000_0000
  {
    Word28(val % 0x1000_0000);
    assert was / 0x1000_0000 == last as nat / 16;
  }

  lemma Word28(w: nat)
    requires w < 0x1000_0000
    ensures w == w % 0x100 + 0x100 * (w / 0x100 % 0x100) + 0x1_0000 * (w / 0x1_0000 % 0x100)
              + 0x100_0000 * (w / 0x100_0000)
  {
    DwordDigits(w);
  }

  lemma Load28Put(val: nat, last: byte)
    ensures Load28(Bytes32(val, last), 0) == val % 0x1000_0000
    ensures Bytes32(val, last)[3] as nat / 16 == last as nat / 16
  {
    Word28(val % 0x1000_0000);
  }

  lemma Written32(m: seq<byte>, n: nat, c: nat, val: nat)
    requires Holds(FAT32, m, c)
    ensures Written(FAT32, m, PutBytes(m, 4 * c, Bytes32(val, m[4 * c + 3])), n, c, val, true)
  {
    var v := Bytes32(val, m[4 * c + 3]);
    var b := PutBytes(m, 4 * c, v);
    Load28Put(val, m[4 * c + 3]);
    forall k | 0 <= k < n && Holds(FAT32, m, k)
      ensures TopBits(FAT32, b, k) == TopBits(FAT32, m, k)
      ensures Entry(FAT32, b, k) == if k == c then Load28(v, 0) else Entry(FAT32, m, k)
    {
      if k < c { EntriesApart(FAT32, c, k); } else if c < k { EntriesApart(FAT32, k, c); }
    }
  }

  // ---- any type

  /** The bytes of a FAT after entry c is set to val. */
  function PutEntry(t: FatType, m: seq<byte>, c: nat, val: nat): (r: seq<byte>)
    requires Holds(t, m, c)
    ensures |r| == |m|
  {
    match t
    case FAT12 => Put12Bytes(m, c, val, true)
    case FAT16 => PutBytes(m, 2 * c, Bytes16(val))
    case FAT32 => PutBytes(m, 4 * c, Bytes32(val, m[4 * c + 3]))
  }

  /** Setting an entry: it reads back as the low bits of the value; every other entry, and the top
      bits of every entry, are what they were. */
  lemma PutEntryWritten(t: FatType, m: seq<byte>, n: nat, c: nat, val: nat)
    requires Holds(t, m, c)
    ensures Written(t, m, PutEntry(t, m, c, val), n, c, val, true)
  {
    match t
    case FAT12 => Written12(m, n, c, val, true);
    case FAT16 => Written16(m, n, c, val);
    case FAT32 => Written32(m, n, c, val);
  }

  /** The FAT m may become r by a write of entry c that failed: nothing, or just the first byte of a
      12-bit entry. */
  predicate HalfPut(t: FatType, m: seq<byte>, r: seq<byte>, c: nat, val: nat) {
    r == m || (t == FAT12 && Holds(FAT12, m, c) && r == Put12Bytes(m, c, val, false))
  }

  /** A 12-bit entry is put one byte after the other. */
  lemma Put12Steps(m: seq<byte>, m1: seq<byte>, m2: seq<byte>, c: nat, val: nat, both: bool)
    requires Holds(FAT12, m, c) && m1 == PutBytes(m, c + c / 2, [NewByte12(c, m[c + c / 2], val, false)])
    requires m2 == if both then PutBytes(m1, c + c / 2 + 1, [NewByte12(c, m1[c + c / 2 + 1], val, true)]) else m1
    ensures m2 == Put12Bytes(m, c, val, both)
  {
  }

  lemma Put32Step(m: seq<byte>, c: nat, val: nat, last: byte)
    requires Holds(FAT32, m, c) && last == m[4 * c + 3]
    ensures PutBytes(m, 4 * c, Bytes32(val, last)) == PutEntry(FAT32, m, c, val)
  {
  }

  /** What PutEntry and a failed write mean for the values of the FAT. */
  lemma DecodesPut(t: FatType, m: seq<byte>, r: seq<byte>, f: seq<nat>, f': seq<nat>, c: nat, val: nat)
    requires c < |f| == |f'| && Holds(t, m, c) && Decodes(t, m, f, |f|) && Decodes(t, r, f', |f|)
    ensures r == PutEntry(t, m, c, val) ==> f' == f[c := Clip(t, val)]
    ensures HalfPut(t, m, r, c, val) ==> forall k :: 0 <= k < |f| && k != c ==> f'[k] == f[k]
  {
    if r == PutEntry(t, m, c, val) {
      PutEntryWritten(t, m, |f|, c, val);
      DecodesWritten(t, m, r, f, f', c, val, true);
    }
    if r == m {
      DecodesWritten(t, m, r, f, f', c, val, false);
    } else if HalfPut(t, m, r, c, val) {
      Written12(m, |f|, c, val, false);
      DecodesWritten(t, m, r, f, f', c, val, false);
    }
  }
}
