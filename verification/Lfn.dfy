/** Long file names in directory entries: 13 UTF-16 units an entry, numbered from 1. */
module Lfn {
  import opened Bytes
  import opened Utf

  const MAX_LFN: nat := 255
  const LAST_PART: nat := 0x40      // flag in the number of the entry with the end of the name
  const ATTR_LFN: nat := 0x0F
  const PAD: unit := 0xFFFF

  type Entry = s: seq<byte> | |s| == 32 witness seq(32, i => 0)

  /** The LFN working buffer: a name of at most 255 units and a zero unit. */
  type Buffer = s: seq<unit> | |s| == 256 witness seq(256, i => 0)

  /** Offset of unit k in an entry. */
  function Place(k: nat): (o: nat)
    requires k < 13
    ensures 1 <= o <= 30
  {
    if k < 5 then 1 + 2 * k else if k < 11 then 4 + 2 * k else 6 + 2 * k
  }

  function UnitOf(e: Entry, k: nat): unit
    requires k < 13
  {
    LoadWord(e, Place(k))
  }

  /** Unit i of a name, with the zero unit after it. */
  function NameAt(n: seq<unit>, i: nat): unit { if i < |n| then n[i] else 0 }

  /** The buffer holds name n. */
  predicate HasName(b: Buffer, n: seq<unit>) {
    |n| <= MAX_LFN && b[..|n|] == n && b[|n|] == 0 && 0 !in n
  }

  /** Parts of a name of n units. */
  function Parts(n: nat): nat { (n + 12) / 13 }

  /** The name in a buffer that has a zero unit. */
  function NameIn(b: seq<unit>): (n: seq<unit>)
    requires 0 in b
    ensures |n| < |b| && b[..|n|] == n && b[|n|] == 0 && 0 !in n
  {
    if b[0] == 0 then [] else [b[0]] + NameIn(b[1..])
  }

  // ---------------------------------------------------------------- put_lfn

  /** Unit k that put_lfn stores of the part from `base` on: after a zero unit or a unit 0xFFFF it pads. */
  function Stored(n: seq<unit>, base: nat, k: nat): unit {
    if k > 0 && (Stored(n, base, k - 1) == 0 || Stored(n, base, k - 1) == PAD) then PAD else NameAt(n, base + k)
  }

  /** Before unit s, the end of the name, or a unit put_lfn takes for it, was stored. */
  predicate Ended(n: seq<unit>, base: nat, s: nat) {
    s > 0 && (Stored(n, base, s - 1) == 0 || Stored(n, base, s - 1) == PAD)
  }

  /** The part ends the name, as put_lfn tells. */
  predicate EndsName(n: seq<unit>, base: nat) {
    Ended(n, base, 13) || NameAt(n, base + 13) == 0
  }

  /** Entry e holds part `ord` of name n, for the short name with checksum sum. */
  ghost predicate IsPart(e: Entry, n: seq<unit>, ord: nat, sum: byte)
    requires 1 <= ord <= 20
  {
    && e[0] as nat == ord + (if EndsName(n, 13 * (ord - 1)) then LAST_PART else 0)
    && e[11] == ATTR_LFN && e[12] == 0 && e[13] == sum && LoadWord(e, 26) == 0
    && forall k :: 0 <= k < 13 ==> UnitOf(e, k) == Stored(n, 13 * (ord - 1), k)
  }

  /** The bytes of the entry at offset o. */
  function EntryAt(s: seq<byte>, o: nat): Entry
    requires o + 32 <= |s|
  {
    s[o..o + 32]
  }

  /** Changing a word of an entry within a sector. */
  lemma WordOfEntry(w: seq<byte>, o: nat, e: Entry, p: nat, u: unit)
    requires o + 32 <= |w| && p + 2 <= 32
    ensures StoreWord(PutBytes(w, o, e), o + p, u) == PutBytes(w, o, StoreWord(e, p, u))
  {
    var a, b := StoreWord(PutBytes(w, o, e), o + p, u), PutBytes(w, o, StoreWord(e, p, u));
    forall q: nat | q < |w| ensures a[q] == b[q] { }
  }

  /** The fixed bytes are set, and the first s units stored. */
  ghost predicate Filled(e: Entry, n: seq<unit>, base: nat, s: nat, sum: byte)
    requires s <= 13
  {
    && e[11] == ATTR_LFN && e[12] == 0 && e[13] == sum && e[26] == 0 && e[27] == 0
    && forall k :: 0 <= k < s ==> UnitOf(e, k) == Stored(n, base, k)
  }

  lemma FillOne(e: Entry, n: seq<unit>, base: nat, s: nat, sum: byte)
    requires s < 13 && Filled(e, n, base, s, sum)
    ensures Filled(StoreWord(e, Place(s), Stored(n, base, s)), n, base, s + 1, sum)
  {
    var e': Entry := StoreWord(e, Place(s), Stored(n, base, s));
    forall k | 0 <= k < s + 1 ensures UnitOf(e', k) == Stored(n, base, k) {
      if k < s { assert UnitOf(e', k) == UnitOf(e, k); }
    }
  }

  lemma StoredNext(n: seq<unit>, base: nat, s: nat)
    ensures Stored(n, base, s) == if Ended(n, base, s) then PAD else NameAt(n, base + s)
    ensures Ended(n, base, s + 1) <==> Stored(n, base, s) == 0 || Stored(n, base, s) == PAD
  {
  }

  lemma NameUnit(b: Buffer, n: seq<unit>, i: nat)
    requires HasName(b, n) && i <= |n|
    ensures b[i] == NameAt(n, i) && (b[i] == 0 <==> i == |n|)
  {
    if i < |n| { assert b[..|n|][i] == b[i] && n[i] in n; }
  }

  lemma NameUnits(b: Buffer, n: seq<unit>)
    requires HasName(b, n)
    ensures forall i :: 0 <= i <= |n| ==> b[i] == NameAt(n, i) && (b[i] == 0 <==> i == |n|)
  {
    forall i | 0 <= i <= |n| ensures b[i] == NameAt(n, i) && (b[i] == 0 <==> i == |n|) { NameUnit(b, n, i); }
  }

  lemma NoZero(n: seq<unit>)
    requires 0 !in n
    ensures forall i :: 0 <= i < |n| ==> n[i] != 0
  {
  }

  method PutFixed(dir: array<byte>, o: nat, sum: byte) returns (ghost e: Entry)
    requires o + 32 <= dir.Length
    modifies dir
    ensures e[11] == ATTR_LFN && e[12] == 0 && e[13] == sum && e[26] == 0 && e[27] == 0
    ensures dir[..] == PutBytes(old(dir[..]), o, e)
  {
    dir[o + 13], dir[o + 11], dir[o + 12] := sum, ATTR_LFN, 0;
    PutWord(dir, o + 26, 0);
    e := EntryAt(dir[..], o);
  }

  method PutOrder(dir: array<byte>, o: nat, v: byte, ghost w: seq<byte>, ghost e: Entry)
    requires o + 32 <= dir.Length == |w| && dir[..] == PutBytes(w, o, e)
    modifies dir
    ensures dir[..] == PutBytes(w, o, e[0 := v])
  {
    dir[o] := v;
  }

  /** put_lfn: store part ord of the name in the entry at offset o. */
  method PutLfn(lfn: array<unit>, ghost n: seq<unit>, dir: array<byte>, o: nat, ord: nat, sum: byte)
    returns (ghost e: Entry)
    requires lfn.Length == 256 && HasName(lfn[..], n) && o + 32 <= dir.Length && 1 <= ord <= Parts(|n|)
    modifies dir
    ensures IsPart(e, n, ord, sum) && dir[..] == PutBytes(old(dir[..]), o, e)
  {
    hide PutBytes, Stored, StoreWord, LoadWord, HasName;
    NamesShort(lfn[..], n);
    ghost var w, b, base := dir[..], lfn[..], 13 * (ord - 1);
    e := PutFixed(dir, o, sum);
    var i, s, wc: nat := (ord - 1) * 13, 0, 0;
    while s < 13
      invariant 0 <= s <= 13 && (wc != PAD ==> i == base + s <= |n|) && wc < 0x1_0000
      invariant if s == 0 then wc == 0 else (wc == PAD <==> Ended(n, base, s))
      invariant Filled(e, n, base, s, sum) && dir[..] == PutBytes(w, o, e)
    {
      StoredNext(n, base, s);
      if wc != PAD {
        NameUnit(b, n, i);
        wc := lfn[i];
        i := i + 1;
      }
      WordOfEntry(w, o, e, Place(s), wc);
      FillOne(e, n, base, s, sum);
      PutWord(dir, o + Place(s), wc);
      e := StoreWord(e, Place(s), wc);
      if wc == 0 { wc := PAD; }
      s := s + 1;
    }
    if wc != PAD { NameUnit(b, n, i); }
    var last := wc == PAD || lfn[i] == 0;
    PutOrder(dir, o, if last then ord + LAST_PART else ord, w, e);
    e := Ordered(e, n, ord, sum, last);
  }

  lemma NamesShort(b: Buffer, n: seq<unit>)
    requires HasName(b, n)
    ensures |n| <= MAX_LFN
  {
  }

  ghost function Ordered(e: Entry, n: seq<unit>, ord: nat, sum: byte, last: bool): (r: Entry)
    requires 1 <= ord <= 20 && Filled(e, n, 13 * (ord - 1), 13, sum) && last == EndsName(n, 13 * (ord - 1))
    ensures r == e[0 := if last then ord + LAST_PART else ord] && IsPart(r, n, ord, sum)
  {
    var r: Entry := e[0 := if last then ord + LAST_PART else ord];
    assert forall k :: 0 <= k < 13 ==> UnitOf(r, k) == UnitOf(e, k);
    r
  }

  // ---------------------------------------------------------------- pick_lfn and cmp_lfn

  /** Units of an entry from k on up to the first zero unit, that included, or all 13. */
  function TakenFrom(e: Entry, k: nat): (m: nat)
    requires k <= 13
    ensures k <= m <= 13 && (k < 13 ==> k < m)
    decreases 13 - k
  {
    if k == 13 then 13 else if UnitOf(e, k) == 0 then k + 1 else TakenFrom(e, k + 1)
  }

  function Taken(e: Entry): (m: nat)
    ensures 1 <= m <= 13
  {
    TakenFrom(e, 0)
  }

  predicate IsLast(e: Entry) { e[0] as nat / 64 % 2 == 1 }

  /** The rest of the entry is padding. */
  predicate Padded(e: Entry) { forall k :: Taken(e) <= k < 13 ==> UnitOf(e, k) == PAD }

  /** A buffer with the first m units of an entry put at `base`. */
  function WithUnits(b: Buffer, base: nat, e: Entry, m: nat): Buffer
    requires m <= 13
  {
    seq(256, q requires 0 <= q < 256 => UnitAt(b, base, e, m, q))
  }

  function UnitAt(b: Buffer, base: nat, e: Entry, m: nat, q: nat): unit
    requires m <= 13 && q < 256
  {
    if base <= q < base + m then UnitOf(e, q - base) else b[q]
  }

  /** Offset in the name of the part with the given number; for number 0 the wrapped -13. */
  function PartBase(ord: nat): (i: nat)
    requires ord < 256
    ensures ord > 0 ==> i == 13 * (ord - 1)
    ensures ord == 0 ==> i > 256
  {
    (13 * ord + 0x1_0000_0000 - 13) % 0x1_0000_0000
  }

  /** The number of an entry, for picking: bit 6 cleared. */
  function PickOrder(e: Entry): (n: nat)
    ensures n < 256
  {
    e[0] as nat / 128 * 128 + e[0] as nat % 64
  }

  /** The entry is a valid part, and fits the buffer. */
  predicate PickGood(e: Entry) {
    var base := PartBase(PickOrder(e));
    LoadWord(e, 26) == 0 && base + Taken(e) <= 256 && Padded(e)
    && (IsLast(e) && UnitOf(e, Taken(e) - 1) != 0 ==> base + 13 < 256)
  }

  function PickedBuffer(b: Buffer, e: Entry): (r: Buffer)
    requires PickGood(e)
  {
    var base := PartBase(PickOrder(e));
    var r := WithUnits(b, base, e, Taken(e));
    if IsLast(e) && UnitOf(e, Taken(e) - 1) != 0 then r[base + 13 := 0] else r
  }

  /** The buffer has a zero unit from p on. */
  predicate ZeroFrom(b: Buffer, p: nat) { exists z :: p <= z < 256 && b[z] == 0 }

  /** Picking the last part puts one behind it, and picking another leaves it there. */
  lemma PickedZero(b: Buffer, e: Entry)
    requires PickGood(e) && (IsLast(e) || ZeroFrom(b, 13 * PickOrder(e)))
    ensures PickOrder(e) >= 1 ==> ZeroFrom(PickedBuffer(b, e), 13 * (PickOrder(e) - 1))
  {
    var r, base, m := PickedBuffer(b, e), PartBase(PickOrder(e)), Taken(e);
    TakenIsZero(e, 0);
    if UnitOf(e, m - 1) == 0 {
      assert r[base + m - 1] == 0;
    } else if IsLast(e) {
      assert r[base + 13] == 0;
    } else {
      var z :| 13 * PickOrder(e) <= z < 256 && b[z] == 0;
      assert r[z] == 0;
    }
  }

  lemma TakeNext(e: Entry, s: nat)
    requires s < 13
    ensures TakenFrom(e, s) == if UnitOf(e, s) == 0 then s + 1 else TakenFrom(e, s + 1)
  {
  }

  lemma WithUnit(b: Buffer, base: nat, e: Entry, m: nat)
    requires m < 13 && base + m < 256
    ensures WithUnits(b, base, e, m + 1) == WithUnits(b, base, e, m)[base + m := UnitOf(e, m)]
  {
  }

  lemma {:induction false} TakenIsZero(e: Entry, k: nat)
    requires k < 13
    ensures TakenFrom(e, k) < 13 ==> UnitOf(e, TakenFrom(e, k) - 1) == 0
    ensures forall j :: k <= j < TakenFrom(e, k) - 1 ==> UnitOf(e, j) != 0
    decreases 13 - k
  {
    TakeNext(e, k);
    if k < 12 { TakenIsZero(e, k + 1); }
  }

  /** Where a pass over the units of an entry stands after s of them, wc being the last one taken. */
  ghost predicate Passing(e: Entry, s: nat, m: nat, wc: nat)
    requires s <= 13
  {
    if wc != 0 then m == s && TakenFrom(e, s) == Taken(e) && (s > 0 ==> wc == UnitOf(e, s - 1))
    else 0 < m <= s && m == Taken(e) && UnitOf(e, m - 1) == 0 && forall k :: m <= k < s ==> UnitOf(e, k) == PAD
  }

  /** pick_lfn: put the part of a name in the entry at offset o into the buffer; false for an entry that
      is no valid part. */
  method PickLfn(lfn: array<unit>, dir: array<byte>, o: nat) returns (ok: bool)
    requires lfn.Length == 256 && o + 32 <= dir.Length
    modifies lfn
    ensures ok == PickGood(EntryAt(dir[..], o))
    ensures ok ==> lfn[..] == PickedBuffer(old(lfn[..]), EntryAt(dir[..], o))
  {
    hide TakenFrom, WithUnits, LoadWord, Place;
    var e: Entry := EntryAt(dir[..], o);
    if LoadWord(e, 26) != 0 { return false; }
    var base := PartBase(PickOrder(e));
    ghost var b, m := lfn[..], 0;
    var i, s := base, 0;
    var wc: nat := 1;
    WithNone(b, base, e);
    while s < 13
      invariant 0 <= s <= 13 && Passing(e, s, m, wc) && i == base + m && (m > 0 ==> i <= 256)
      invariant lfn[..] == WithUnits(b, base, e, m)
    {
      TakeNext(e, s);
      var uc := UnitOf(e, s);
      if wc != 0 {
        if i >= 256 { return false; }
        WithUnit(b, base, e, m);
        lfn[i] := uc;
        wc, m := uc, m + 1;
        i := i + 1;
      } else {
        if uc != PAD { return false; }
      }
      s := s + 1;
    }
    AllTaken(e);
    if IsLast(e) && wc != 0 {
      if i >= 256 { return false; }
      lfn[i] := 0;
    }
    return true;
  }

  lemma WithNone(b: Buffer, base: nat, e: Entry)
    ensures WithUnits(b, base, e, 0) == b
  {
  }

  lemma AllTaken(e: Entry)
    ensures TakenFrom(e, 13) == 13
  {
  }

  /** The entry matches the name in the buffer: its units are those of the name up to case, and the name
      ends where the last part does. */
  predicate CmpGood(up: unit -> unit, b: Buffer, e: Entry) {
    var base := PartBase(e[0] as nat % 64);
    && LoadWord(e, 26) == 0 && base + Taken(e) <= 256 && Padded(e)
    && (forall k :: 0 <= k < Taken(e) ==> up(UnitOf(e, k)) == up(b[base + k]))
    && !(IsLast(e) && UnitOf(e, Taken(e) - 1) != 0 && b[base + 13] != 0)
  }

  /** cmp_lfn: compare the part of a name in the entry at offset o with the name in the buffer. */
  method CmpLfn(up: unit -> unit, lfn: array<unit>, dir: array<byte>, o: nat) returns (ok: bool)
    requires lfn.Length == 256 && o + 32 <= dir.Length
    ensures ok == CmpGood(up, lfn[..], EntryAt(dir[..], o))
  {
    hide TakenFrom, LoadWord, Place;
    var e: Entry := EntryAt(dir[..], o);
    if LoadWord(e, 26) != 0 { return false; }
    var base := PartBase(e[0] as nat % 64);
    ghost var m := 0;
    var i, s := base, 0;
    var wc: nat := 1;
    while s < 13
      invariant 0 <= s <= 13 && Passing(e, s, m, wc) && i == base + m && (m > 0 ==> i <= 256)
      invariant forall k :: 0 <= k < m ==> up(UnitOf(e, k)) == up(lfn[base + k])
    {
      TakeNext(e, s);
      var uc := UnitOf(e, s);
      if wc != 0 {
        if i >= 256 || up(uc) != up(lfn[i]) { return false; }
        wc, m := uc, m + 1;
        i := i + 1;
      } else {
        if uc != PAD { return false; }
      }
      s := s + 1;
    }
    AllTaken(e);
    if IsLast(e) && wc != 0 && lfn[i] != 0 { return false; }
    return true;
  }

  // ---------------------------------------------------------------- what is put is picked

  /** A name that put_lfn stores faithfully: units 0xFFFF, which it takes for padding, only make up the
      end of the last entry, which is full. */
  predicate Spells(n: seq<unit>) {
    forall i :: 0 <= i < |n| && n[i] == PAD ==> |n| % 13 == 0 && |n| <= i + 13 && NameAt(n, i + 1) in {0, PAD}
  }

  lemma {:induction false} StoredPlain(n: seq<unit>, base: nat, k: nat)
    requires 0 !in n && Spells(n) && base % 13 == 0 && base < |n| && k < 13
    ensures Stored(n, base, k) == if base + k <= |n| then NameAt(n, base + k) else PAD
  {
    if k > 0 {
      StoredPlain(n, base, k - 1);
      if base + k <= |n| { assert n[base + k - 1] in n; }
      if base + k < |n| { assert n[base + k] in n; }
    }
  }

  /** A part with 13 units of the name has them in the bytes 1 to 10, 14 to 25 and 28 to 31, the low byte of each
      first. */
  lemma PartBytes(e: Entry, n: seq<unit>, ord: nat, sum: byte)
    requires 1 <= ord <= 20 && IsPart(e, n, ord, sum) && 13 * ord <= |n| && 0 !in n && Spells(n)
    ensures var b := 13 * (ord - 1);
            && Pair(e, 1) == n[b] && Pair(e, 3) == n[b + 1] && Pair(e, 5) == n[b + 2] && Pair(e, 7) == n[b + 3]
            && Pair(e, 9) == n[b + 4] && Pair(e, 14) == n[b + 5] && Pair(e, 16) == n[b + 6] && Pair(e, 18) == n[b + 7]
            && Pair(e, 20) == n[b + 8] && Pair(e, 22) == n[b + 9] && Pair(e, 24) == n[b + 10]
            && Pair(e, 28) == n[b + 11] && Pair(e, 30) == n[b + 12]
  {
    var b := 13 * (ord - 1);
    hide Stored, EndsName;
    forall k | 0 <= k < 13 ensures Stored(n, b, k) == n[b + k] { StoredPlain(n, b, k); }
    assert forall k :: 0 <= k < 13 ==> UnitOf(e, k) == n[b + k];
    assert UnitOf(e, 0) == n[b] && UnitOf(e, 1) == n[b + 1] && UnitOf(e, 2) == n[b + 2] && UnitOf(e, 3) == n[b + 3];
    assert UnitOf(e, 4) == n[b + 4] && UnitOf(e, 5) == n[b + 5] && UnitOf(e, 6) == n[b + 6] && UnitOf(e, 7) == n[b + 7];
    assert UnitOf(e, 8) == n[b + 8] && UnitOf(e, 9) == n[b + 9] && UnitOf(e, 10) == n[b + 10];
    assert UnitOf(e, 11) == n[b + 11] && UnitOf(e, 12) == n[b + 12];
  }

  function Pair(e: Entry, o: nat): nat
    requires o < 31
  {
    e[o] as nat + 0x100 * e[o + 1] as nat
  }

  /** An entry of a faithfully stored name: its number and flag, and the units it gives. */
  lemma PartPicked(e: Entry, n: seq<unit>, ord: nat, sum: byte)
    requires 1 <= ord <= Parts(|n|) && |n| <= MAX_LFN && 0 !in n && Spells(n) && IsPart(e, n, ord, sum)
    ensures PickOrder(e) == ord == e[0] as nat % 64 && (IsLast(e) <==> ord == Parts(|n|))
    ensures forall k :: 0 <= k < 13 ==>
              UnitOf(e, k) == if 13 * (ord - 1) + k <= |n| then NameAt(n, 13 * (ord - 1) + k) else PAD
    ensures Taken(e) == if 13 * ord <= |n| then 13 else |n| - 13 * (ord - 1) + 1
    ensures PickGood(e)
  {
    var base := 13 * (ord - 1);
    assert base % 13 == 0;
    forall k | 0 <= k < 13 ensures UnitOf(e, k) == if base + k <= |n| then NameAt(n, base + k) else PAD {
      StoredPlain(n, base, k);
    }
    PartEnds(n, ord);
    TakenIsZero(e, 0);
    TakenPlain(e, n, base);
  }

  lemma PartEnds(n: seq<unit>, ord: nat)
    requires 1 <= ord <= Parts(|n|) && 0 !in n && Spells(n)
    ensures EndsName(n, 13 * (ord - 1)) <==> ord == Parts(|n|)
  {
    var base := 13 * (ord - 1);
    StoredPlain(n, base, 12);
    if base + 12 < |n| { assert n[base + 12] in n; }
    if base + 13 < |n| { assert n[base + 13] in n; }
  }

  lemma TakenPlain(e: Entry, n: seq<unit>, base: nat)
    requires base < |n| && 0 !in n
    requires forall k :: 0 <= k < 13 ==> UnitOf(e, k) == if base + k <= |n| then NameAt(n, base + k) else PAD
    ensures Taken(e) == if base + 13 <= |n| then 13 else |n| - base + 1
  {
    TakenIsZero(e, 0);
    var m := Taken(e);
    if m < 13 { assert UnitOf(e, m - 1) == 0; }
    if base + m - 1 < |n| { assert n[base + m - 1] in n; }
    if base + 13 > |n| { assert UnitOf(e, |n| - base) == 0; }
  }

  /** The buffer after the parts of numbers `from` down to 1 are picked, es[0] being the last part. */
  ghost function PickedParts(b: Buffer, es: seq<Entry>): (r: Buffer)
    decreases |es|
  {
    if es == [] then b
    else PickedParts(if PickGood(es[0]) then PickedBuffer(b, es[0]) else b, es[1..])
  }

  lemma {:induction false} PickedOneMore(b: Buffer, es: seq<Entry>, e: Entry)
    ensures PickedParts(b, es + [e]) == if PickGood(e) then PickedBuffer(PickedParts(b, es), e) else PickedParts(b, es)
    decreases |es|
  {
    if es == [] {
      assert PickedParts(if PickGood(e) then PickedBuffer(b, e) else b, [e][1..]) == PickedParts(b, [e]);
    } else {
      assert (es + [e])[1..] == es[1..] + [e];
      PickedOneMore(if PickGood(es[0]) then PickedBuffer(b, es[0]) else b, es[1..], e);
    }
  }

  /** The entries of a name, the last part first. */
  ghost predicate AreParts(es: seq<Entry>, n: seq<unit>, sum: byte) {
    |n| <= MAX_LFN && |es| <= Parts(|n|)
    && forall j :: 0 <= j < |es| ==> IsPart(es[j], n, |es| - j, sum)
  }

  /** From position p on, the buffer holds the name. */
  predicate HasTail(b: Buffer, n: seq<unit>, p: nat) {
    |n| <= MAX_LFN && forall q :: p <= q <= |n| ==> b[q] == NameAt(n, q)
  }

  lemma {:induction false} TailPicked(b: Buffer, es: seq<Entry>, n: seq<unit>, sum: byte)
    requires AreParts(es, n, sum) && 0 !in n && Spells(n) && (|es| < Parts(|n|) ==> HasTail(b, n, 13 * |es|))
    requires es != [] || |n| == 0 ==> |n| > 0
    ensures HasTail(PickedParts(b, es), n, 0)
    decreases |es|
  {
    hide PickedBuffer, Spells;
    if es != [] {
      var ord := |es|;
      PartPicked(es[0], n, ord, sum);
      var b' := PickedBuffer(b, es[0]);
      OnePicked(b, es[0], n, ord);
      assert AreParts(es[1..], n, sum) by {
        forall j | 0 <= j < ord - 1 ensures IsPart(es[1..][j], n, ord - 1 - j, sum) { assert es[1..][j] == es[j + 1]; }
      }
      TailPicked(b', es[1..], n, sum);
    }
  }

  lemma OnePicked(b: Buffer, e: Entry, n: seq<unit>, ord: nat)
    requires 1 <= ord <= Parts(|n|) && |n| <= MAX_LFN && 0 !in n && (ord < Parts(|n|) ==> HasTail(b, n, 13 * ord))
    requires PickOrder(e) == ord && (IsLast(e) <==> ord == Parts(|n|)) && PickGood(e)
    requires forall k :: 0 <= k < 13 ==>
               UnitOf(e, k) == if 13 * (ord - 1) + k <= |n| then NameAt(n, 13 * (ord - 1) + k) else PAD
    requires Taken(e) == if 13 * ord <= |n| then 13 else |n| - 13 * (ord - 1) + 1
    ensures HasTail(PickedBuffer(b, e), n, 13 * (ord - 1))
  {
    var base, r := 13 * (ord - 1), PickedBuffer(b, e);
    if base + 12 < |n| { assert n[base + 12] in n && UnitOf(e, 12) == n[base + 12]; }
    forall q | base <= q <= |n| ensures r[q] == NameAt(n, q) {
      if q < base + 13 { assert UnitOf(e, q - base) == NameAt(n, q); }
    }
  }

  /** Putting a name and picking it gives the name back. */
  lemma PutPick(b: Buffer, es: seq<Entry>, n: seq<unit>, sum: byte)
    requires AreParts(es, n, sum) && |es| == Parts(|n|) && |n| > 0 && 0 !in n && Spells(n)
    ensures HasName(PickedParts(b, es), n)
  {
    TailPicked(b, es, n, sum);
    var r := PickedParts(b, es);
    assert r[..|n|] == n;
  }

  // ---------------------------------------------------------------- and only then

  /** After a unit 0xFFFF that is not the last of a part, the part has another. */
  lemma PadSticks(n: seq<unit>, base: nat, k: nat)
    requires k < 12 && base + k < |n| && n[base + k] == PAD
    ensures Stored(n, base, k + 1) == PAD
  {
    StoredNext(n, base, k);
    StoredNext(n, base, k + 1);
  }

  /** Picking part `ord` decides what the buffer has there in the end. */
  lemma {:induction false} PickedStays(b: Buffer, es: seq<Entry>, n: seq<unit>, sum: byte, q: nat)
    requires AreParts(es, n, sum) && q > 13 * |es| && q < 256
    ensures PickedParts(b, es)[q] == b[q]
    decreases |es|
  {
    hide PickGood, IsPart;
    if es != [] {
      TailParts(es, n, sum);
      OrderOf(es[0], n, |es|, sum);
      if PickGood(es[0]) { PickedOutside(b, es[0], q); }
      PickedStays(if PickGood(es[0]) then PickedBuffer(b, es[0]) else b, es[1..], n, sum, q);
    }
  }

  lemma PickedOutside(b: Buffer, e: Entry, q: nat)
    requires PickGood(e) && 13 * PickOrder(e) < q < 256
    ensures PickedBuffer(b, e)[q] == b[q]
  {
  }

  lemma TailParts(es: seq<Entry>, n: seq<unit>, sum: byte)
    requires AreParts(es, n, sum) && es != []
    ensures AreParts(es[1..], n, sum)
  {
    forall j | 0 <= j < |es| - 1 ensures IsPart(es[1..][j], n, |es| - 1 - j, sum) { assert es[1..][j] == es[j + 1]; }
  }

  lemma OrderOf(e: Entry, n: seq<unit>, ord: nat, sum: byte)
    requires 1 <= ord <= 20 && IsPart(e, n, ord, sum)
    ensures PickOrder(e) == ord && (IsLast(e) <==> EndsName(n, 13 * (ord - 1)))
  {
  }

  /** Every entry is a valid part. */
  ghost predicate AllGood(es: seq<Entry>) { forall j :: 0 <= j < |es| ==> PickGood(es[j]) }

  lemma GoodAppend(es: seq<Entry>, e: Entry)
    ensures AllGood(es + [e]) <==> AllGood(es) && PickGood(e)
  {
    hide PickGood;
    var r := es + [e];
    assert r[|es|] == e && forall k :: 0 <= k < |es| ==> r[k] == es[k];
  }

  /** Above its first unit, what a part's entry gives is what the buffer has in the end. */
  lemma AtPart(b: Buffer, es: seq<Entry>, n: seq<unit>, sum: byte, j: nat, q: nat) returns (c: Buffer)
    requires AreParts(es, n, sum) && AllGood(es) && j < |es| && 13 * (|es| - j - 1) < q <= 13 * (|es| - j) && q < 256
    ensures PickedParts(b, es)[q] == PickedBuffer(c, es[j])[q]
    decreases |es|
  {
    hide PickGood, PickedBuffer, AreParts, AllGood;
    TailParts(es, n, sum);
    GoodTail(es);
    if j == 0 {
      c := b;
      PickedStays(PickedBuffer(b, es[0]), es[1..], n, sum, q);
    } else {
      c := AtPart(PickedBuffer(b, es[0]), es[1..], n, sum, j - 1, q);
    }
  }

  lemma GoodTail(es: seq<Entry>)
    requires AllGood(es) && es != []
    ensures PickGood(es[0]) && AllGood(es[1..])
  {
    hide PickGood;
  }

  /** The units of a name are taken from its entry. */
  lemma TakenBeyond(e: Entry, n: seq<unit>, ord: nat, sum: byte, k: nat)
    requires 1 <= ord <= 20 && IsPart(e, n, ord, sum) && 0 !in n && k < 13 && 13 * (ord - 1) + k <= |n|
    requires 13 * (ord - 1) + k < |n| || Stored(n, 13 * (ord - 1), k) == PAD
    ensures k < Taken(e)
  {
    TakenIsZero(e, 0);
    NoZero(n);
    StoredNext(n, 13 * (ord - 1), Taken(e) - 1);
    assert UnitOf(e, Taken(e) - 1) == Stored(n, 13 * (ord - 1), Taken(e) - 1);
  }

  lemma PickedUnit(c: Buffer, e: Entry, ord: nat, k: nat)
    requires PickGood(e) && PickOrder(e) == ord && ord >= 1 && 0 < k < Taken(e)
    ensures 13 * (ord - 1) + k < 256 && PickedBuffer(c, e)[13 * (ord - 1) + k] == UnitOf(e, k)
  {
  }

  lemma PickedEnd(c: Buffer, e: Entry, ord: nat)
    requires PickGood(e) && PickOrder(e) == ord && ord >= 1 && Taken(e) == 13 && UnitOf(e, 12) != 0 && IsLast(e)
    ensures 13 * ord < 256 && PickedBuffer(c, e)[13 * ord] == 0
  {
  }

  lemma PadGoesOn(b: Buffer, es: seq<Entry>, n: seq<unit>, sum: byte, i: nat)
    requires AreParts(es, n, sum) && AllGood(es) && |es| == Parts(|n|) && 0 !in n
    requires HasName(PickedParts(b, es), n) && i < |n| && n[i] == PAD
    ensures if i % 13 == 12 then i + 1 == |n| else i + 1 < |n| && n[i + 1] == PAD
  {
    hide PickedParts, PickedBuffer, Stored, PickGood, HasName, Taken, UnitOf;
    NamesShort(PickedParts(b, es), n);
    var ord, k := i / 13 + 1, i % 13;
    var e := es[|es| - ord];
    assert IsPart(e, n, ord, sum);
    OrderOf(e, n, ord, sum);
    NameUnit(PickedParts(b, es), n, i + 1);
    var c := AtPart(b, es, n, sum, |es| - ord, i + 1);
    StoredNext(n, 13 * (ord - 1), k);
    if k < 12 {
      PadSticks(n, 13 * (ord - 1), k);
      TakenBeyond(e, n, ord, sum, k + 1);
      PickedUnit(c, e, ord, k + 1);
    } else {
      TakenBeyond(e, n, ord, sum, 12);
      PickedEnd(c, e, ord);
    }
  }

  lemma {:induction false} PadToEnd(b: Buffer, es: seq<Entry>, n: seq<unit>, sum: byte, i: nat)
    requires AreParts(es, n, sum) && AllGood(es) && |es| == Parts(|n|) && 0 !in n
    requires HasName(PickedParts(b, es), n) && i < |n| && n[i] == PAD
    ensures |n| == 13 * (i / 13 + 1)
    decreases |n| - i
  {
    hide PickedParts, AreParts, HasName, AllGood;
    PadGoesOn(b, es, n, sum, i);
    if i % 13 != 12 { PadToEnd(b, es, n, sum, i + 1); }
  }

  /** A name is stored and picked back unchanged exactly when it spells no padding inside. */
  lemma PutPickExactly(b: Buffer, es: seq<Entry>, n: seq<unit>, sum: byte)
    requires AreParts(es, n, sum) && |es| == Parts(|n|) && |n| > 0 && 0 !in n
    ensures AllGood(es) && HasName(PickedParts(b, es), n) <==> Spells(n)
  {
    hide PickedParts, HasName;
    if Spells(n) {
      PutPick(b, es, n, sum);
      AllPartsGood(es, n, sum);
    } else if AllGood(es) && HasName(PickedParts(b, es), n) {
      SpellsIfPicked(b, es, n, sum);
    }
  }

  lemma AllPartsGood(es: seq<Entry>, n: seq<unit>, sum: byte)
    requires AreParts(es, n, sum) && 0 !in n && Spells(n)
    ensures AllGood(es)
  {
    forall j | 0 <= j < |es| ensures PickGood(es[j]) { PartPicked(es[j], n, |es| - j, sum); }
  }

  lemma SpellsIfPicked(b: Buffer, es: seq<Entry>, n: seq<unit>, sum: byte)
    requires AreParts(es, n, sum) && AllGood(es) && |es| == Parts(|n|) && 0 !in n && HasName(PickedParts(b, es), n)
    ensures Spells(n)
  {
    hide PickedParts, HasName, AreParts, AllGood;
    forall i | 0 <= i < |n| && n[i] == PAD ensures |n| % 13 == 0 && |n| <= i + 13 && NameAt(n, i + 1) in {0, PAD} {
      PadToEnd(b, es, n, sum, i);
      PadGoesOn(b, es, n, sum, i);
    }
  }

  // ---------------------------------------------------------------- matching

  /** Upper-casing takes zero, and nothing else, to zero. */
  ghost predicate IsUpper(up: unit -> unit) { up(0) == 0 && forall u :: up(u) == 0 ==> u == 0 }

  /** The same name up to case. */
  ghost predicate SameName(up: unit -> unit, m: seq<unit>, n: seq<unit>) {
    |m| == |n| && forall i :: 0 <= i < |n| ==> up(m[i]) == up(n[i])
  }

  /** What comparing a part of a stored name with the buffer says. */
  ghost predicate PartMatches(up: unit -> unit, b: Buffer, n: seq<unit>, ord: nat)
    requires 1 <= ord <= Parts(|n|) && |n| <= MAX_LFN
  {
    && (forall q :: 13 * (ord - 1) <= q < 13 * ord && q <= |n| ==> up(NameAt(n, q)) == up(b[q]))
    && (|n| == 13 * ord ==> b[|n|] == 0)
  }

  lemma CmpPart(up: unit -> unit, b: Buffer, e: Entry, n: seq<unit>, ord: nat, sum: byte)
    requires 1 <= ord <= Parts(|n|) && |n| <= MAX_LFN && 0 !in n && Spells(n) && IsPart(e, n, ord, sum)
    ensures CmpGood(up, b, e) <==> PartMatches(up, b, n, ord)
  {
    hide Spells, IsPart, Padded, PartBase, UnitOf, NameAt, CmpGood, PartMatches, Taken;
    PartUnits(e, n, ord, sum);
    if CmpGood(up, b, e) { GoodMatches(up, b, e, n, ord); }
    if PartMatches(up, b, n, ord) { MatchesGood(up, b, e, n, ord); }
  }

  /** Entry e holds the units of part ord of n, and ends with the zero after them if that is within it. */
  ghost predicate PartHeld(e: Entry, n: seq<unit>, ord: nat)
    requires 1 <= ord <= Parts(|n|) && |n| <= MAX_LFN
  {
    var base := 13 * (ord - 1);
    PartBase(e[0] as nat % 64) == base && base + Taken(e) <= 256 && Padded(e) && LoadWord(e, 26) == 0
    && (IsLast(e) && UnitOf(e, Taken(e) - 1) != 0 <==> |n| == 13 * ord)
    && (forall k :: 0 <= k < Taken(e) ==> UnitOf(e, k) == NameAt(n, base + k))
    && Taken(e) == (if 13 * ord <= |n| then 13 else |n| - base + 1)
  }

  lemma PartUnits(e: Entry, n: seq<unit>, ord: nat, sum: byte)
    requires 1 <= ord <= Parts(|n|) && |n| <= MAX_LFN && 0 !in n && Spells(n) && IsPart(e, n, ord, sum)
    ensures PartHeld(e, n, ord)
  {
    hide Spells, IsPart, Padded, PartBase, UnitOf, NameAt, Taken;
    PartPicked(e, n, ord, sum);
    PartFits(e, n, ord, sum);
  }

  lemma GoodMatches(up: unit -> unit, b: Buffer, e: Entry, n: seq<unit>, ord: nat)
    requires 1 <= ord <= Parts(|n|) && |n| <= MAX_LFN && PartHeld(e, n, ord) && CmpGood(up, b, e)
    ensures PartMatches(up, b, n, ord)
  {
    hide Padded, PartBase, UnitOf, NameAt, Taken;
    var base := 13 * (ord - 1);
    forall q | base <= q < 13 * ord && q <= |n| ensures up(NameAt(n, q)) == up(b[q]) {
      assert UnitOf(e, q - base) == NameAt(n, base + (q - base));
      assert b[base + (q - base)] == b[q];
    }
  }

  lemma MatchesGood(up: unit -> unit, b: Buffer, e: Entry, n: seq<unit>, ord: nat)
    requires 1 <= ord <= Parts(|n|) && |n| <= MAX_LFN && PartHeld(e, n, ord) && PartMatches(up, b, n, ord)
    ensures CmpGood(up, b, e)
  {
    hide Padded, PartBase, UnitOf, NameAt, Taken;
    var base := 13 * (ord - 1);
    forall k | 0 <= k < Taken(e)
      ensures up(UnitOf(e, k)) == up(b[base + k])
    {
      assert UnitOf(e, k) == NameAt(n, base + k);
    }
  }

  lemma PartFits(e: Entry, n: seq<unit>, ord: nat, sum: byte)
    requires 1 <= ord <= Parts(|n|) && |n| <= MAX_LFN && 0 !in n && Spells(n) && IsPart(e, n, ord, sum)
    ensures PartBase(e[0] as nat % 64) == 13 * (ord - 1) && 13 * (ord - 1) + Taken(e) <= 256 && Padded(e)
    ensures LoadWord(e, 26) == 0
    ensures IsLast(e) && UnitOf(e, Taken(e) - 1) != 0 <==> |n| == 13 * ord
  {
    PartPicked(e, n, ord, sum);
    var base, m := 13 * (ord - 1), Taken(e);
    assert UnitOf(e, m - 1) == if base + m - 1 <= |n| then NameAt(n, base + m - 1) else PAD;
    if base + m - 1 < |n| { assert n[base + m - 1] in n; }
  }

  /** Comparing every part of a faithfully stored name with a name in the buffer succeeds exactly when the
      two are the same up to case, and as long. */
  lemma CmpPlain(up: unit -> unit, b: Buffer, m: seq<unit>, es: seq<Entry>, n: seq<unit>, sum: byte)
    requires IsUpper(up) && HasName(b, m) && AreParts(es, n, sum) && |es| == Parts(|n|) && |n| > 0 && 0 !in n
    requires Spells(n)
    ensures (forall j :: 0 <= j < |es| ==> CmpGood(up, b, es[j])) <==> SameName(up, m, n)
  {
    hide CmpGood, IsPart;
    forall j | 0 <= j < |es| ensures CmpGood(up, b, es[j]) <==> PartMatches(up, b, n, |es| - j) {
      CmpPart(up, b, es[j], n, |es| - j, sum);
    }
    if SameName(up, m, n) {
      forall ord | 1 <= ord <= |es| ensures PartMatches(up, b, n, ord) { SameMatches(up, b, m, n, ord); }
    } else if forall j :: 0 <= j < |es| ==> CmpGood(up, b, es[j]) {
      forall ord | 1 <= ord <= |es| ensures PartMatches(up, b, n, ord) { assert CmpGood(up, b, es[|es| - ord]); }
      MatchesSame(up, b, m, n);
    }
  }

  lemma SameMatches(up: unit -> unit, b: Buffer, m: seq<unit>, n: seq<unit>, ord: nat)
    requires HasName(b, m) && SameName(up, m, n) && 1 <= ord <= Parts(|n|)
    ensures PartMatches(up, b, n, ord)
  {
    forall q | 13 * (ord - 1) <= q < 13 * ord && q <= |n| ensures up(NameAt(n, q)) == up(b[q]) {
      NameUnit(b, m, q);
    }
  }

  lemma MatchesSame(up: unit -> unit, b: Buffer, m: seq<unit>, n: seq<unit>)
    requires IsUpper(up) && HasName(b, m) && 0 < |n| <= MAX_LFN && 0 !in n
    requires forall ord :: 1 <= ord <= Parts(|n|) ==> PartMatches(up, b, n, ord)
    ensures SameName(up, m, n)
  {
    forall q: nat | q <= |n| ensures q < |n| ==> up(n[q]) == up(b[q])
                             ensures q == |n| ==> b[q] == 0
    {
      if q < |n| { assert PartMatches(up, b, n, q / 13 + 1); }
      else if |n| % 13 == 0 { assert PartMatches(up, b, n, |n| / 13); }
      else { assert PartMatches(up, b, n, |n| / 13 + 1); }
    }
    LengthFromZero(up, b, m, n);
    forall i | 0 <= i < |n| ensures up(m[i]) == up(n[i]) { NameUnit(b, m, i); }
  }

  lemma LengthFromZero(up: unit -> unit, b: Buffer, m: seq<unit>, n: seq<unit>)
    requires IsUpper(up) && HasName(b, m) && 0 < |n| <= MAX_LFN && 0 !in n && b[|n|] == 0
    requires forall q :: 0 <= q < |n| ==> up(n[q]) == up(b[q])
    ensures |m| == |n|
  {
    NameUnits(b, m);
    NoZero(n);
  }

  // ---------------------------------------------------------------- what the entries of a name stand for

  /** The place of the first unit 0xFFFF of a name, or its length. */
  function FirstPad(n: seq<unit>): (i: nat)
    ensures i <= |n| && (forall k :: 0 <= k < i ==> n[k] != PAD) && (i < |n| ==> n[i] == PAD)
  {
    if n == [] || n[0] == PAD then 0 else 1 + FirstPad(n[1..])
  }

  /** The name that the entries put for n stand for when a directory is searched or read: from the first
      unit 0xFFFF on put_lfn pads, and it takes the part with that unit for the last one. */
  function KnownAs(n: seq<unit>): (m: seq<unit>)
    ensures Parts(|m|) <= Parts(|n|)
  {
    var i := FirstPad(n);
    if i == |n| then n else n[..i] + seq(13 * (i / 13 + 1) - i, k => PAD)
  }

  lemma KnownUnits(n: seq<unit>)
    requires 0 !in n
    ensures var m, i := KnownAs(n), FirstPad(n);
            && 0 !in m && (|m| == 0 <==> |n| == 0) && (i == |n| ==> m == n)
            && (i < |n| ==>
                  |m| == 13 * (i / 13 + 1)
                  && forall q :: 0 <= q < |m| ==> m[q] == if q < i then n[q] else PAD)
    ensures Spells(KnownAs(n))
  {
    hide Spells;
    PadsEnd(KnownAs(n), FirstPad(n));
  }

  lemma PadsEnd(m: seq<unit>, i: nat)
    requires (forall q :: 0 <= q < |m| && q < i ==> m[q] != PAD) && (forall q :: i <= q < |m| ==> m[q] == PAD)
    requires i < |m| ==> |m| == 13 * (i / 13 + 1)
    ensures Spells(m)
  {
    assert i < |m| ==> |m| % 13 == 0 && |m| <= i + 13;
  }

  /** It is the name itself exactly when that is stored faithfully. */
  lemma KnownExactly(n: seq<unit>)
    requires 0 !in n
    ensures KnownAs(n) == n <==> Spells(n)
  {
    KnownUnits(n);
    var i := FirstPad(n);
    if Spells(n) && i < |n| {
      PadsOn(n, i, |n|);
      assert KnownAs(n) == n;
    }
  }

  lemma {:induction false} PadsOn(n: seq<unit>, i: nat, k: nat)
    requires 0 !in n && Spells(n) && i < k <= |n| && n[i] == PAD
    ensures forall q :: i <= q < k ==> n[q] == PAD
    decreases k
  {
    if i + 1 < k {
      PadsOn(n, i, k - 1);
      assert n[k - 2] == PAD && NameAt(n, k - 1) == n[k - 1] && n[k - 1] in n;
    }
  }

  /** Up to their end, the parts of both are stored alike. */
  lemma {:induction false} StoredKnown(n: seq<unit>, base: nat, k: nat)
    requires 0 !in n && base % 13 == 0 && base < |KnownAs(n)| && k < 13
    ensures Stored(n, base, k) == Stored(KnownAs(n), base, k)
    ensures FirstPad(n) < |n| && base + k >= FirstPad(n) ==> Stored(n, base, k) == PAD
  {
    hide KnownAs, FirstPad;
    KnownUnits(n);
    StoredNext(n, base, k);
    StoredNext(KnownAs(n), base, k);
    if k > 0 {
      StoredKnown(n, base, k - 1);
      StoredNext(n, base, k - 1);
      StoredNext(KnownAs(n), base, k - 1);
    }
  }

  /** Of the parts that stand for a name, only the last is taken for the last. */
  lemma KnownEnds(n: seq<unit>, ord: nat)
    requires 0 !in n && 1 <= ord <= Parts(|KnownAs(n)|)
    ensures EndsName(n, 13 * (ord - 1)) <==> ord == Parts(|KnownAs(n)|)
    ensures EndsName(n, 13 * (ord - 1)) <==> EndsName(KnownAs(n), 13 * (ord - 1))
  {
    hide KnownAs, Spells, Stored;
    var m, base := KnownAs(n), 13 * (ord - 1);
    KnownUnits(n);
    StoredKnown(n, base, 12);
    PartEnds(m, ord);
    StoredNext(n, base, 12);
    StoredNext(m, base, 12);
    if FirstPad(n) < |n| && base + 13 < |m| { assert n[base + 13] in n; }
  }

  /** The entries of n end with those of the name they stand for. */
  lemma KnownParts(es: seq<Entry>, n: seq<unit>, sum: byte)
    requires AreParts(es, n, sum) && |es| == Parts(|n|) && 0 !in n && |KnownAs(n)| <= MAX_LFN
    ensures AreParts(es[|es| - Parts(|KnownAs(n)|)..], KnownAs(n), sum)
  {
    hide Stored, EndsName;
    var m := KnownAs(n);
    var x := |es| - Parts(|m|);
    forall j | 0 <= j < |es| - x ensures IsPart(es[x..][j], m, |es| - x - j, sum) {
      var ord := |es| - x - j;
      assert es[x..][j] == es[x + j] && IsPart(es[x + j], n, ord, sum);
      KnownEnds(n, ord);
      var base := 13 * (ord - 1);
      forall k | 0 <= k < 13 ensures Stored(n, base, k) == Stored(m, base, k) { StoredKnown(n, base, k); }
    }
  }

  /** When the padding passes the end of the buffer, the last part is never valid. */
  lemma KnownTooLong(up: unit -> unit, b: Buffer, e: Entry, n: seq<unit>, sum: byte)
    requires 0 !in n && |n| <= MAX_LFN < |KnownAs(n)| && IsPart(e, n, 20, sum)
    ensures Parts(|KnownAs(n)|) == Parts(|n|) == 20 && !CmpGood(up, b, e) && !PickGood(e)
  {
    KnownUnits(n);
    TakenIsZero(e, 0);
    OrderOf(e, n, 20, sum);
    var m := Taken(e);
    StoredKnown(n, 247, m - 1);
    assert UnitOf(e, m - 1) == Stored(n, 247, m - 1);
    NoZero(n);
    StoredNext(n, 247, m - 1);
  }

  /** Comparing those of the parts that stand for a stored name with a name in the buffer succeeds exactly
      when this is the name they stand for, up to case, and as long. */
  lemma CmpExactly(up: unit -> unit, b: Buffer, m: seq<unit>, es: seq<Entry>, n: seq<unit>, sum: byte)
    requires IsUpper(up) && HasName(b, m) && AreParts(es, n, sum) && |es| == Parts(|n|) && |n| > 0 && 0 !in n
    ensures (forall j :: |es| - Parts(|KnownAs(n)|) <= j < |es| ==> CmpGood(up, b, es[j]))
       <==> SameName(up, m, KnownAs(n))
  {
    hide CmpGood, IsPart, KnownAs, Spells;
    var k := KnownAs(n);
    var x := |es| - Parts(|k|);
    KnownUnits(n);
    if |k| <= MAX_LFN {
      KnownParts(es, n, sum);
      CmpPlain(up, b, m, es[x..], k, sum);
      assert forall j :: 0 <= j < |es| - x ==> es[x..][j] == es[x + j];
      assert forall j :: x <= j < |es| ==> es[j] == es[x..][j - x];
    } else {
      LongIs20(n);
      assert IsPart(es[0], n, 20, sum);
      KnownTooLong(up, b, es[0], n, sum);
    }
  }

  lemma LongIs20(n: seq<unit>)
    requires 0 !in n && |n| <= MAX_LFN < |KnownAs(n)|
    ensures Parts(|n|) == Parts(|KnownAs(n)|) == 20
  {
    KnownUnits(n);
  }

  /** Upper-casing takes no other unit where it takes 0xFFFF. */
  ghost predicate PadAlone(up: unit -> unit) { forall u :: up(u) == up(PAD) ==> u == PAD }

  /** A name is the same, up to case, as the one its entries stand for exactly when it is stored faithfully. */
  lemma OwnName(up: unit -> unit, n: seq<unit>)
    requires PadAlone(up) && 0 !in n
    ensures SameName(up, n, KnownAs(n)) <==> Spells(n)
  {
    KnownUnits(n);
    KnownExactly(n);
    if SameName(up, n, KnownAs(n)) {
      assert forall q :: 0 <= q < |n| ==> up(n[q]) == up(KnownAs(n)[q]);
      assert KnownAs(n) == n;
    }
  }
}
