/** A directory as a table of 32-byte entries: finding a name, reading the next object, allocating a
    block of entries, and what registering a name changes. */
module DirTable {
  import opened Bits
  import opened Bytes
  import opened Utf
  import opened Lfn

  const DELETED: nat := 0xE5
  const NO_BLOCK: nat := 0xFFFF_FFFF
  const NO_ORDER: nat := 0xFF

  function Attr(e: Entry): nat { e[11] as nat % 64 }

  predicate IsFree(e: Entry) { e[0] == 0 || e[0] as nat == DELETED }

  predicate IsLfn(e: Entry) { !IsFree(e) && Attr(e) == ATTR_LFN }

  /** A live entry of a short name, no volume label. */
  predicate IsSfn(e: Entry) { !IsFree(e) && Attr(e) / 8 % 2 == 0 }

  // ---------------------------------------------------------------- the checksum

  /** The checksum of the first k bytes of a short name. */
  function SumOf(e: seq<byte>, k: nat): byte
    requires k <= |e|
  {
    if k == 0 then 0 else (SumOf(e, k - 1) as nat / 2 + 128 * SumOf(e, k - 1) as nat + e[k - 1] as nat) % 256
  }

  lemma {:induction false} SumPrefix(e: seq<byte>, n: nat, k: nat)
    requires k <= n <= |e|
    ensures SumOf(e[..n], k) == SumOf(e, k)
  {
    if k > 0 { SumPrefix(e, n, k - 1); }
  }

  /** The checksum on eight bits: the sum so far rotated to the right by one bit, and the next byte added. */
  function Rotated(e: seq<byte>, k: nat): bv8
    requires k <= |e|
  {
    if k == 0 then 0 else var s := Rotated(e, k - 1); ((s >> 1) | (s << 7)) + BitsOf(e[k - 1])
  }

  lemma {:induction false} SumIsRotated(e: seq<byte>, k: nat)
    requires k <= |e|
    ensures SumOf(e, k) == Number(Rotated(e, k))
  {
    hide Number, BitsOf;
    if k == 0 {
      Extremes();
    } else {
      SumIsRotated(e, k - 1);
      RotateBits(Rotated(e, k - 1), BitsOf(e[k - 1]));
      NumberOfBits(e[k - 1]);
    }
  }

  /** The checksum of LONGFI~1TXT. */
  lemma SumOfLongFile()
    ensures SumOf([76, 79, 78, 71, 70, 73, 126, 49, 84, 88, 84], 11) == 0xD4
  {
    hide SumOf;
    var e: seq<byte> := [76, 79, 78, 71, 70, 73, 126, 49, 84, 88, 84];
    SumNext(e, 0, 0);
    SumNext(e, 1, 76);
    SumNext(e, 2, 117);
    SumNext(e, 3, 8);
    SumNext(e, 4, 75);
    SumNext(e, 5, 235);
    SumNext(e, 6, 62);
    SumNext(e, 7, 157);
    SumNext(e, 8, 255);
    SumNext(e, 9, 83);
    SumNext(e, 10, 1);
  }

  lemma SumNext(e: seq<byte>, k: nat, s: byte)
    requires k < |e| && s == if k == 0 then 0 else SumOf(e, k)
    ensures SumOf(e, k + 1) as nat == (s as nat / 2 + 128 * s as nat + e[k] as nat) % 256
  {
  }

  /** Two names that differ in one byte have different checksums. */
  lemma {:induction false} SumsApart(e: seq<byte>, f: seq<byte>, p: nat, k: nat)
    requires |e| == |f| && p < k <= |e| && e[p] != f[p] && forall i :: 0 <= i < k && i != p ==> e[i] == f[i]
    ensures SumOf(e, k) != SumOf(f, k)
  {
    if k == p + 1 { SumsSame(e, f, p); } else { SumsApart(e, f, p, k - 1); }
    SumsStep(SumOf(e, k - 1), SumOf(f, k - 1), e[k - 1], f[k - 1]);
  }

  lemma {:induction false} SumsSame(e: seq<byte>, f: seq<byte>, k: nat)
    requires k <= |e| == |f| && forall i :: 0 <= i < k ==> e[i] == f[i]
    ensures SumOf(e, k) == SumOf(f, k)
  {
    if k > 0 { SumsSame(e, f, k - 1); }
  }

  /** A step of the checksum loses nothing of the sum so far, nor of the byte. */
  lemma SumsStep(s: byte, t: byte, b: byte, c: byte)
    requires (s == t) != (b == c)
    ensures (s as nat / 2 + 128 * s as nat + b as nat) % 256 != (t as nat / 2 + 128 * t as nat + c as nat) % 256
  {
    hide Turned;
    TurnedApart(s, t);
    HalfAndLow(s, b);
    HalfAndLow(t, c);
    SumsModulo(Turned(s), Turned(t), b, c);
  }

  /** sum_sfn. */
  method SumSfn(dir: array<byte>, o: nat) returns (sum: byte)
    requires o + 11 <= dir.Length
    ensures sum == Number(Rotated(dir[o..o + 11], 11)) == SumOf(dir[o..o + 11], 11)
  {
    hide Number, Rotated;
    sum := 0;
    var k := 0;
    while k < 11
      invariant 0 <= k <= 11 && sum == SumOf(dir[o..o + 11], k)
    {
      sum := (sum as nat / 2 + 128 * sum as nat + dir[o + k] as nat) % 256;
      k := k + 1;
    }
    SumIsRotated(dir[o..o + 11], 11);
  }

  // ---------------------------------------------------------------- finding

  /** What is looked for: the long name in the buffer, the short name, whether that stands for the whole
      name, and whether long names count. */
  datatype Key = Key(buf: Buffer, sfn: seq<byte>, loss: bool, noLfn: bool)

  /** How far the entries of a long name agree so far: the number of the last one, the checksum, and
      the offset of the first. */
  datatype Scan = Scan(ord: nat, sum: nat, blk: nat)

  const RESET: Scan := Scan(NO_ORDER, NO_ORDER, NO_BLOCK)

  datatype Found = Missing | Found(at: nat, blk: nat)

  /** A long-name entry with flag "last part" starts a sequence. */
  function Started(st: Scan, e: Entry, i: nat): Scan {
    if IsLast(e) then Scan(PickOrder(e), e[13] as nat, 32 * i) else st
  }

  function LfnStep(up: unit -> unit, st: Scan, e: Entry, i: nat, key: Key): Scan {
    var s := Started(st, e, i);
    if PickOrder(e) == s.ord && s.sum == e[13] as nat && CmpGood(up, key.buf, e) then
      s.(ord := if s.ord == 0 then NO_ORDER else s.ord - 1)
    else s.(ord := NO_ORDER)
  }

  predicate Matches(st: Scan, e: Entry, key: Key) {
    (st.ord == 0 && st.sum == SumOf(e, 11) as nat) || (!key.loss && e[..11] == key.sfn)
  }

  /** One entry: where the scan stands after it, or that it is the one looked for, or the end. */
  datatype Seen = Pass(st: Scan) | Hit | End

  function See(up: unit -> unit, st: Scan, e: Entry, i: nat, key: Key): Seen {
    if e[0] == 0 then End
    else if e[0] as nat == DELETED || (Attr(e) / 8 % 2 == 1 && Attr(e) != ATTR_LFN) then Pass(RESET.(sum := st.sum))
    else if Attr(e) == ATTR_LFN then Pass(if key.noLfn then st else LfnStep(up, st, e, i, key))
    else if Matches(st, e, key) then Hit
    else Pass(RESET.(sum := st.sum))
  }

  /** dir_find from entry i on. */
  function FindFrom(up: unit -> unit, t: seq<Entry>, i: nat, st: Scan, key: Key): Found
    decreases |t| - i
  {
    if i >= |t| then Missing
    else match See(up, st, t[i], i, key)
         case End => Missing
         case Hit => Found(i, st.blk)
         case Pass(s) => FindFrom(up, t, i + 1, s, key)
  }

  function Find(up: unit -> unit, t: seq<Entry>, key: Key): Found { FindFrom(up, t, 0, RESET, key) }

  /** What is found is a live entry of a file or a directory: never a volume label, and never behind the end
      mark. */
  lemma {:induction false} FoundIsShort(up: unit -> unit, t: seq<Entry>, i: nat, st: Scan, key: Key)
    ensures var f := FindFrom(up, t, i, st, key);
            f.Found? ==> i <= f.at < |t| && IsSfn(t[f.at]) && forall k :: i <= k < f.at ==> t[k][0] != 0
    decreases |t| - i
  {
    if i < |t| {
      var x := See(up, st, t[i], i, key);
      if x.Pass? { FoundIsShort(up, t, i + 1, x.st, key); }
    }
  }

  // ---------------------------------------------------------------- reading

  function ReadStep(st: Scan, e: Entry, i: nat): Scan {
    var s := Started(st, e, i);
    if PickOrder(e) == s.ord && s.sum == e[13] as nat && PickGood(e) then
      s.(ord := if s.ord == 0 then NO_ORDER else s.ord - 1)
    else s.(ord := NO_ORDER)
  }

  /** One entry when reading: volume labels, dot entries and deleted ones are passed over. */
  function SeeRead(st: Scan, e: Entry, i: nat): Seen {
    if e[0] == 0 then End
    else if e[0] as nat == DELETED || e[0] == 46 || Attr(e) % 32 == 8 then Pass(st.(ord := NO_ORDER))
    else if Attr(e) == ATTR_LFN then Pass(ReadStep(st, e, i))
    else Hit
  }

  function LongNameOf(st: Scan, e: Entry): nat {
    if st.ord == 0 && st.sum == SumOf(e, 11) as nat then st.blk else NO_BLOCK
  }

  /** dir_read from entry i on: the next object, and where its long name starts. */
  function ReadFrom(t: seq<Entry>, i: nat, st: Scan): Found
    decreases |t| - i
  {
    if i >= |t| then Missing
    else match SeeRead(st, t[i], i)
         case End => Missing
         case Hit => Found(i, LongNameOf(st, t[i]))
         case Pass(s) => ReadFrom(t, i + 1, s)
  }

  // ---------------------------------------------------------------- allocating

  /** dir_alloc from entry i on, after n free ones: the last of `want` contiguous free entries. */
  function AllocFrom(t: seq<Entry>, i: nat, n: nat, want: nat): (r: int)
    ensures r >= -1
    decreases |t| - i
  {
    if i >= |t| then -1
    else if IsFree(t[i]) then (if n + 1 == want then i else AllocFrom(t, i + 1, n + 1, want))
    else AllocFrom(t, i + 1, 0, want)
  }

  /** It is the end of as many free entries, in any table. */
  lemma {:induction false} AllocContiguous(t: seq<Entry>, i: nat, n: nat, want: nat)
    requires n <= i <= |t| && n < want && forall j :: i - n <= j < i ==> IsFree(t[j])
    ensures var r := AllocFrom(t, i, n, want);
            r != -1 ==> want - 1 <= r < |t| && forall j :: r + 1 - want <= j <= r ==> IsFree(t[j])
    decreases |t| - i
  {
    if i < |t| {
      if !IsFree(t[i]) { AllocContiguous(t, i + 1, 0, want); }
      else if n + 1 < want { AllocContiguous(t, i + 1, n + 1, want); }
    }
  }

  /** The block a..a+n is free, and no entry before it is an end mark. */
  ghost predicate FreeBlock(t: seq<Entry>, a: nat, n: nat) {
    a + n <= |t| && (forall i :: a <= i < a + n ==> IsFree(t[i])) && (forall i :: 0 <= i < a ==> t[i][0] != 0)
  }

  /** No live entry comes after an end mark. */
  ghost predicate NoneAfterEnd(t: seq<Entry>) {
    forall i, j :: 0 <= i < j < |t| && t[i][0] == 0 ==> IsFree(t[j])
  }

  lemma {:induction false} AllocFree(t: seq<Entry>, i: nat, n: nat, want: nat)
    requires NoneAfterEnd(t) && n <= i <= |t| && n < want && (forall j :: i - n <= j < i ==> IsFree(t[j]))
    requires forall j :: 0 <= j < i - n ==> t[j][0] != 0
    ensures var r := AllocFrom(t, i, n, want); r != -1 ==> want - 1 <= r < |t| && FreeBlock(t, r + 1 - want, want)
    decreases |t| - i
  {
    if i < |t| {
      if IsFree(t[i]) {
        if n + 1 != want { AllocFree(t, i + 1, n + 1, want); }
      } else {
        NoEndBefore(t, i);
        AllocFree(t, i + 1, 0, want);
      }
    }
  }

  lemma NoEndBefore(t: seq<Entry>, i: nat)
    requires NoneAfterEnd(t) && i < |t| && !IsFree(t[i])
    ensures forall j :: 0 <= j <= i ==> t[j][0] != 0
  {
  }

  /** It is the first such block: a search that fails, or that passes, has left no room behind. */
  lemma {:induction false} AllocFirst(t: seq<Entry>, i: nat, n: nat, want: nat, a: nat)
    requires n <= i <= |t| && n < want
    requires (forall j :: i - n <= j < i ==> IsFree(t[j])) && (n < i ==> !IsFree(t[i - n - 1]))
    requires i - n <= a && a + want <= |t| && forall j :: a <= j < a + want ==> IsFree(t[j])
    ensures AllocFrom(t, i, n, want) != -1 && AllocFrom(t, i, n, want) <= a + want - 1
    decreases |t| - i
  {
    if IsFree(t[i]) {
      if n + 1 != want { AllocFirst(t, i + 1, n + 1, want, a); }
    } else {
      AllocFirst(t, i + 1, 0, want, a);
    }
  }

  // ---------------------------------------------------------------- registering

  /** A name as it is registered: its units, whether entries for them are made, and its short name entry. */
  datatype Name = Name(units: seq<unit>, long: bool, sfn: Entry)

  function PartsOf(n: Name): nat { if n.long then Parts(|n.units|) else 0 }

  /** Parts that a search passes over before those that stand for the name: only a name with a unit 0xFFFF
      inside has any. */
  function Passes(n: Name): (x: nat)
    ensures x <= PartsOf(n)
  {
    if n.long then Parts(|n.units|) - Parts(|KnownAs(n.units)|) else 0
  }

  /** The entries of a name: its parts, the last one first, and the short name. */
  ghost predicate IsBlock(es: seq<Entry>, n: Name) {
    && |es| == PartsOf(n) + 1 && es[PartsOf(n)] == n.sfn && !IsFree(n.sfn) && Attr(n.sfn) == 0
    && 0 < |n.units| <= MAX_LFN && 0 !in n.units && AreParts(es[..PartsOf(n)], n.units, SumOf(n.sfn, 11))
  }

  function Registered(t: seq<Entry>, a: nat, es: seq<Entry>): (r: seq<Entry>)
    requires a + |es| <= |t|
    ensures |r| == |t|
    ensures forall i :: 0 <= i < |t| ==> r[i] == if a <= i < a + |es| then es[i - a] else t[i]
  {
    t[..a] + es + t[a + |es|..]
  }

  /** The entries of a block put one after the other. */
  lemma RegisteredOn(t: seq<Entry>, a: nat, es: seq<Entry>, e: Entry)
    requires a + |es| < |t|
    ensures Registered(t, a, es + [e]) == Registered(t, a, es)[a + |es| := e]
  {
  }

  /** An entry of a long name is followed by another or by a short name. */
  ghost predicate Tidy(t: seq<Entry>) {
    forall i :: 0 <= i < |t| && IsLfn(t[i]) ==> i + 1 < |t| && (IsLfn(t[i + 1]) || IsSfn(t[i + 1]))
  }

  lemma BlockLive(es: seq<Entry>, n: Name, j: nat)
    requires IsBlock(es, n) && j < |es|
    ensures !IsFree(es[j]) && (if j < |es| - 1 then IsLfn(es[j]) else IsSfn(es[j]))
  {
    if j < |es| - 1 {
      assert IsPart(es[..PartsOf(n)][j], n.units, PartsOf(n) - j, SumOf(n.sfn, 11));
      OrderOf(es[j], n.units, PartsOf(n) - j, SumOf(n.sfn, 11));
    }
  }

  /** Registering in a free block keeps the directory in order. */
  lemma RegisterKeeps(t: seq<Entry>, a: nat, es: seq<Entry>, n: Name)
    requires IsBlock(es, n) && FreeBlock(t, a, |es|) && NoneAfterEnd(t)
    ensures NoneAfterEnd(Registered(t, a, es)) && (Tidy(t) ==> Tidy(Registered(t, a, es)))
  {
    var r := Registered(t, a, es);
    forall j: nat | j < |es|
      ensures !IsFree(es[j]) && (if j < |es| - 1 then IsLfn(es[j]) else IsSfn(es[j]))
    {
      BlockLive(es, n, j);
    }
    forall i | Tidy(t) && 0 <= i < |r| && IsLfn(r[i]) ensures i + 1 < |r| && (IsLfn(r[i + 1]) || IsSfn(r[i + 1])) {
      if i < a { assert IsLfn(t[i]); assert IsFree(t[a]); }
      else if i < a + |es| { assert r[i] == es[i - a]; }
      else { assert IsLfn(t[i]); }
    }
    assert forall j :: 0 <= j < |es| ==> es[j][0] != 0;
  }

  // ---- what a scan meets

  /** Where the scan stands after entries i .. j-1, or None when it hit or ended before. */
  function Passed(up: unit -> unit, t: seq<Entry>, i: nat, j: nat, st: Scan, key: Key): Seen
    requires i <= j <= |t|
    decreases j - i
  {
    if i == j then Pass(st)
    else match See(up, st, t[i], i, key)
         case Pass(s) => Passed(up, t, i + 1, j, s, key)
         case x => x
  }

  lemma {:induction false} FindPassed(up: unit -> unit, t: seq<Entry>, i: nat, j: nat, st: Scan, key: Key)
    requires i <= j <= |t| && Passed(up, t, i, j, st, key).Pass?
    ensures FindFrom(up, t, i, st, key) == FindFrom(up, t, j, Passed(up, t, i, j, st, key).st, key)
    decreases j - i
  {
    if i < j { FindPassed(up, t, i + 1, j, See(up, st, t[i], i, key).st, key); }
  }

  /** Tables that agree on a stretch agree on what a scan of it does, and on a find that ends there. */
  lemma {:induction false} PassedSame(up: unit -> unit, t: seq<Entry>, r: seq<Entry>, i: nat, j: nat, st: Scan,
                                      key: Key)
    requires i <= j <= |t| == |r| && forall k :: i <= k < j ==> t[k] == r[k]
    ensures Passed(up, r, i, j, st, key) == Passed(up, t, i, j, st, key)
    ensures !Passed(up, t, i, j, st, key).Pass? ==> FindFrom(up, r, i, st, key) == FindFrom(up, t, i, st, key)
    decreases j - i
  {
    if i < j {
      var x := See(up, st, t[i], i, key);
      if x.Pass? { PassedSame(up, t, r, i + 1, j, x.st, key); }
    }
  }

  /** After an entry that is none of a long name, the scan is reset; so it is at the start. */
  lemma {:induction false} ResetBefore(up: unit -> unit, t: seq<Entry>, i: nat, j: nat, st: Scan, key: Key)
    requires i <= j <= |t| && Passed(up, t, i, j, st, key).Pass? && st.ord == NO_ORDER && st.blk == NO_BLOCK
    requires i < j ==> !IsLfn(t[j - 1])
    ensures var s := Passed(up, t, i, j, st, key).st; s.ord == NO_ORDER && s.blk == NO_BLOCK
    decreases j - i
  {
    if i < j { ResetLast(up, t, i, j, st, key); }
  }

  lemma {:induction false} ResetLast(up: unit -> unit, t: seq<Entry>, i: nat, j: nat, st: Scan, key: Key)
    requires i < j <= |t| && Passed(up, t, i, j, st, key).Pass? && !IsLfn(t[j - 1])
    ensures var s := Passed(up, t, i, j, st, key).st; s.ord == NO_ORDER && s.blk == NO_BLOCK
    decreases j - i
  {
    var x := See(up, st, t[i], i, key);
    if i + 1 < j { ResetLast(up, t, i + 1, j, x.st, key); }
  }

  /** Nothing is found among free entries. */
  lemma {:induction false} FreeMissing(up: unit -> unit, t: seq<Entry>, i: nat, st: Scan, key: Key)
    requires i <= |t| && forall j :: i <= j < |t| ==> IsFree(t[j])
    ensures FindFrom(up, t, i, st, key) == Missing
    decreases |t| - i
  {
    if i < |t| && t[i][0] != 0 { FreeMissing(up, t, i + 1, RESET.(sum := st.sum), key); }
  }

  // ---- a scan over a registered block

  /** The block stands at a in the table. */
  ghost predicate StandsAt(t: seq<Entry>, a: nat, es: seq<Entry>) {
    a + |es| <= |t| && forall j :: 0 <= j < |es| ==> t[a + j] == es[j]
  }

  lemma {:induction false} PassedOn(up: unit -> unit, t: seq<Entry>, i: nat, j: nat, st: Scan, key: Key)
    requires i <= j < |t| && Passed(up, t, i, j, st, key).Pass?
    ensures Passed(up, t, i, j + 1, st, key) == See(up, Passed(up, t, i, j, st, key).st, t[j], j, key)
    decreases j - i
  {
    if i < j { PassedOn(up, t, i + 1, j, See(up, st, t[i], i, key).st, key); }
  }

  /** The parts from x to j match the name looked for. */
  ghost predicate PartsGood(up: unit -> unit, es: seq<Entry>, x: nat, j: nat, key: Key)
    requires x <= j <= |es|
  {
    forall i :: x <= i < j ==> CmpGood(up, key.buf, es[i])
  }

  /** What a part of a registered name does to the scan. */
  lemma SeePart(up: unit -> unit, st: Scan, e: Entry, i: nat, n: seq<unit>, ord: nat, sum: byte, key: Key)
    requires 1 <= ord <= 20 && IsPart(e, n, ord, sum) && !key.noLfn
    ensures var s := if EndsName(n, 13 * (ord - 1)) then Scan(ord, sum as nat, 32 * i) else st;
            See(up, st, e, i, key)
            == Pass(s.(ord := if s.ord == ord && s.sum == sum as nat && CmpGood(up, key.buf, e) then ord - 1
                              else NO_ORDER))
  {
    hide CmpGood, UnitOf, Taken, PickGood, EndsName;
    OrderOf(e, n, ord, sum);
  }

  /** Entries of a long name never stop a search. */
  lemma {:induction false} PartsPass(up: unit -> unit, t: seq<Entry>, a: nat, es: seq<Entry>, n: Name, st: Scan,
                                     key: Key, j: nat)
    requires IsBlock(es, n) && StandsAt(t, a, es) && j <= PartsOf(n)
    ensures Passed(up, t, a, a + j, st, key).Pass?
    decreases j
  {
    if j > 0 {
      PartsPass(up, t, a, es, n, st, key, j - 1);
      BlockLive(es, n, j - 1);
      assert t[a + (j - 1)] == es[j - 1];
      PassedOn(up, t, a, a + j - 1, st, key);
    }
  }

  /** Part j of a block. */
  lemma PartOfBlock(es: seq<Entry>, n: Name, j: nat)
    requires IsBlock(es, n) && j < PartsOf(n)
    ensures IsPart(es[j], n.units, PartsOf(n) - j, SumOf(n.sfn, 11)) && 1 <= PartsOf(n) - j <= 20
    ensures j >= Passes(n) ==> (EndsName(n.units, 13 * (PartsOf(n) - j - 1)) <==> j == Passes(n))
  {
    hide IsPart, EndsName;
    assert es[..PartsOf(n)][j] == es[j];
    if j >= Passes(n) { KnownEnds(n.units, PartsOf(n) - j); }
  }

  /** After j parts of a block, more than are passed over, the scan has the start and the checksum of those
      that stand for the name, and counts on as long as they match. */
  lemma {:induction false} ScanParts(up: unit -> unit, t: seq<Entry>, a: nat, es: seq<Entry>, n: Name, st: Scan,
                                     key: Key, j: nat)
    requires IsBlock(es, n) && StandsAt(t, a, es) && !key.noLfn && Passes(n) < j <= PartsOf(n)
    ensures Passed(up, t, a, a + j, st, key)
         == Pass(Scan(if PartsGood(up, es, Passes(n), j, key) then PartsOf(n) - j else NO_ORDER,
                      SumOf(n.sfn, 11) as nat, 32 * (a + Passes(n))))
    decreases j
  {
    hide See, CmpGood, IsPart, EndsName, Passes;
    var e, sum, ord := es[j - 1], SumOf(n.sfn, 11), PartsOf(n) - (j - 1);
    PartOfBlock(es, n, j - 1);
    assert t[a + (j - 1)] == e;
    if j - 1 > Passes(n) {
      ScanParts(up, t, a, es, n, st, key, j - 1);
    } else {
      PartsPass(up, t, a, es, n, st, key, j - 1);
    }
    PassedOn(up, t, a, a + j - 1, st, key);
    SeePart(up, Passed(up, t, a, a + j - 1, st, key).st, e, a + j - 1, n.units, ord, sum, key);
  }

  /** Whether the name looked for is the registered one, by the long name its entries stand for or by the
      short name. */
  ghost predicate NameMatches(up: unit -> unit, n: Name, m: seq<unit>, key: Key) {
    (n.long && !key.noLfn && SameName(up, m, KnownAs(n.units))) || (!key.loss && n.sfn[..11] == key.sfn)
  }

  lemma PartsGoodExactly(up: unit -> unit, es: seq<Entry>, n: Name, m: seq<unit>, key: Key)
    requires IsUpper(up) && IsBlock(es, n) && n.long && HasName(key.buf, m)
    ensures Passes(n) < PartsOf(n)
    ensures PartsGood(up, es, Passes(n), PartsOf(n), key) <==> SameName(up, m, KnownAs(n.units))
  {
    hide CmpGood, IsPart, KnownAs, Spells;
    KnownUnits(n.units);
    CmpExactly(up, key.buf, m, es[..PartsOf(n)], n.units, SumOf(n.sfn, 11));
    var ps := es[..PartsOf(n)];
    assert forall i :: 0 <= i < |ps| ==> ps[i] == es[i];
  }

  /** Entries of a long name before a short name that is put without one are taken for its own: a scan
      comes to it having found all of them to match, and their checksum is that of the short name. */
  predicate Adopted(st: Scan, n: Name, key: Key) {
    !(n.long && !key.noLfn) && st.ord == 0 && st.sum == SumOf(n.sfn, 11) as nat
  }

  /** The start that is told for a found block. */
  function BlockTold(n: Name, a: nat, st: Scan, key: Key): nat {
    if n.long && !key.noLfn then 32 * (a + Passes(n)) else st.blk
  }

  /** A scan that comes to a block, in whatever state, finds it when the name is the one looked for or the
      short name is taken for that of entries before it, and else passes it. */
  lemma ScanBlock(up: unit -> unit, t: seq<Entry>, a: nat, es: seq<Entry>, n: Name, m: seq<unit>, st: Scan, key: Key)
    requires IsUpper(up) && IsBlock(es, n) && StandsAt(t, a, es) && HasName(key.buf, m)
    ensures if NameMatches(up, n, m, key) || Adopted(st, n, key)
            then FindFrom(up, t, a, st, key) == Found(a + PartsOf(n), BlockTold(n, a, st, key))
            else
              && Passed(up, t, a, a + |es|, st, key).Pass?
              && (var s := Passed(up, t, a, a + |es|, st, key).st; s.ord == NO_ORDER && s.blk == NO_BLOCK)
  {
    hide CmpGood, IsPart, LfnStep, AreParts, KnownAs, Passes;
    var P := PartsOf(n);
    BlockLive(es, n, P);
    assert t[a + P] == n.sfn;
    if n.long && !key.noLfn {
      PartsGoodExactly(up, es, n, m, key);
      ScanParts(up, t, a, es, n, st, key, P);
    } else {
      SkipParts(up, t, a, es, n, st, key, P);
    }
    FindPassed(up, t, a, a + P, st, key);
    PassedOn(up, t, a, a + P, st, key);
  }

  /** When only short names count, or there are no parts, the scan is where it was. */
  lemma {:induction false} SkipParts(up: unit -> unit, t: seq<Entry>, a: nat, es: seq<Entry>, n: Name, st: Scan,
                                     key: Key, j: nat)
    requires IsBlock(es, n) && StandsAt(t, a, es) && j <= PartsOf(n) && (key.noLfn || PartsOf(n) == 0)
    ensures Passed(up, t, a, a + j, st, key) == Pass(st)
    decreases j
  {
    if j > 0 {
      SkipParts(up, t, a, es, n, st, key, j - 1);
      BlockLive(es, n, j - 1);
      assert t[a + (j - 1)] == es[j - 1];
      PassedOn(up, t, a, a + j - 1, st, key);
    }
  }

  lemma BlockNotEmpty(es: seq<Entry>, n: Name)
    requires IsBlock(es, n)
    ensures |es| == PartsOf(n) + 1
  {
  }

  // ---- the theorems

  /** Where a scan of t for key stands when it comes to entry a. */
  function Arriving(up: unit -> unit, t: seq<Entry>, a: nat, key: Key): Seen
    requires a <= |t|
  {
    Passed(up, t, 0, a, RESET, key)
  }

  /** It has nothing to go on there, unless an entry of a long name comes directly before and counts. */
  lemma ArrivesReset(up: unit -> unit, t: seq<Entry>, a: nat, key: Key)
    requires a <= |t| && (a == 0 || !IsLfn(t[a - 1]) || key.noLfn)
    ensures var x := Arriving(up, t, a, key); x.Pass? ==> x.st.ord == NO_ORDER && x.st.blk == NO_BLOCK
  {
    if key.noLfn { ShortOnly(up, t, 0, a, RESET, key); }
    else if Arriving(up, t, a, key).Pass? { ResetBefore(up, t, 0, a, RESET, key); }
  }

  lemma {:induction false} ShortOnly(up: unit -> unit, t: seq<Entry>, i: nat, a: nat, st: Scan, key: Key)
    requires i <= a <= |t| && key.noLfn && st.ord == NO_ORDER && st.blk == NO_BLOCK
    ensures var x := Passed(up, t, i, a, st, key); x.Pass? ==> x.st.ord == NO_ORDER && x.st.blk == NO_BLOCK
    decreases a - i
  {
    if i < a && See(up, st, t[i], i, key).Pass? { ShortOnly(up, t, i + 1, a, See(up, st, t[i], i, key).st, key); }
  }

  /** A name that was missing is found where it was registered, in any directory. Its block is told with it,
      but for a short name that entries of a long name come directly before. */
  lemma RegisteredIsFound(up: unit -> unit, t: seq<Entry>, a: nat, es: seq<Entry>, n: Name, m: seq<unit>, key: Key)
    requires IsUpper(up) && IsBlock(es, n) && FreeBlock(t, a, |es|)
    requires HasName(key.buf, m) && NameMatches(up, n, m, key) && Find(up, t, key) == Missing
    ensures Arriving(up, t, a, key).Pass?
    ensures Find(up, Registered(t, a, es), key)
         == Found(a + PartsOf(n), BlockTold(n, a, Arriving(up, t, a, key).st, key))
    ensures a == 0 || !IsLfn(t[a - 1]) || key.noLfn ==> Arriving(up, t, a, key).st.blk == NO_BLOCK
  {
    hide KnownAs;
    var r := Registered(t, a, es);
    NotEnded(up, t, 0, a, RESET, key);
    PassedSame(up, t, r, 0, a, RESET, key);
    FindPassed(up, r, 0, a, RESET, key);
    ScanBlock(up, r, a, es, n, m, Passed(up, r, 0, a, RESET, key).st, key);
    if a == 0 || !IsLfn(t[a - 1]) || key.noLfn { ArrivesReset(up, t, a, key); }
  }

  lemma {:induction false} NotEnded(up: unit -> unit, t: seq<Entry>, i: nat, a: nat, st: Scan, key: Key)
    requires i <= a <= |t| && forall j :: i <= j < a ==> t[j][0] != 0
    ensures var x := Passed(up, t, i, a, st, key); x.Pass? || (x.Hit? && FindFrom(up, t, i, st, key).Found?)
    decreases a - i
  {
    if i < a && See(up, st, t[i], i, key).Pass? { NotEnded(up, t, i + 1, a, See(up, st, t[i], i, key).st, key); }
  }

  /** Every other name is found, or missing, as before if and only if the short name is not taken for that
      of entries that were left before it. */
  lemma OthersAsBefore(up: unit -> unit, t: seq<Entry>, a: nat, es: seq<Entry>, n: Name, m: seq<unit>, key: Key)
    requires IsUpper(up) && IsBlock(es, n) && FreeBlock(t, a, |es|) && NoneAfterEnd(t)
    requires HasName(key.buf, m) && !NameMatches(up, n, m, key)
    ensures Find(up, Registered(t, a, es), key) == Find(up, t, key)
       <==> !(Arriving(up, t, a, key).Pass? && Adopted(Arriving(up, t, a, key).st, n, key))
  {
    hide See, IsBlock, NameMatches;
    BlockNotEmpty(es, n);
    var r := Registered(t, a, es);
    NotEnded(up, t, 0, a, RESET, key);
    PassedSame(up, t, r, 0, a, RESET, key);
    if Passed(up, t, 0, a, RESET, key).Pass? {
      var st := Passed(up, t, 0, a, RESET, key).st;
      FindPassed(up, t, 0, a, RESET, key);
      FindPassed(up, r, 0, a, RESET, key);
      ScanBlock(up, r, a, es, n, m, st, key);
      if Adopted(st, n, key) {
        NotFoundFree(up, t, a, st, key);
        if key.noLfn { ArrivesReset(up, t, a, key); }
      } else {
        FindPassed(up, r, a, a + |es|, st, key);
        AfterBlock(up, t, r, a, |es|, st, Passed(up, r, a, a + |es|, st, key).st, key);
      }
    }
  }

  /** A name that was missing is found by itself, after it was registered, exactly when it is the name its
      entries stand for, up to case, or its short name is looked for or taken for that of entries before. */
  lemma FoundExactly(up: unit -> unit, t: seq<Entry>, a: nat, es: seq<Entry>, n: Name, key: Key)
    requires IsUpper(up) && IsBlock(es, n) && FreeBlock(t, a, |es|) && NoneAfterEnd(t)
    requires HasName(key.buf, n.units) && Find(up, t, key) == Missing
    ensures Find(up, Registered(t, a, es), key).Found?
       <==> NameMatches(up, n, n.units, key)
            || (Arriving(up, t, a, key).Pass? && Adopted(Arriving(up, t, a, key).st, n, key))
    ensures n.long && !key.noLfn && (key.loss || n.sfn[..11] != key.sfn) && PadAlone(up) ==>
              (Find(up, Registered(t, a, es), key).Found? <==> Spells(n.units))
  {
    hide KnownAs, Spells, IsBlock, See, AreParts;
    if NameMatches(up, n, n.units, key) {
      RegisteredIsFound(up, t, a, es, n, n.units, key);
    } else {
      OthersAsBefore(up, t, a, es, n, n.units, key);
    }
    if PadAlone(up) { OwnName(up, n.units); }
  }

  /** Twelve letters A, a unit 0xFFFF and a letter B. */
  function PadInside(): (n: seq<unit>)
    ensures |n| == 14 && n[12] == PAD && n[13] == 66 && forall k :: 0 <= k < 12 ==> n[k] == 65
  {
    seq(12, k => 65) + [PAD, 66]
  }

  lemma PadInsideKnown()
    ensures FirstPad(PadInside()) == 12 && 0 !in PadInside() && KnownAs(PadInside()) == PadInside()[..13]
    ensures 0 !in PadInside()[..13]
  {
    hide FirstPad, Spells;
    hide KnownAs;
    var n := PadInside();
    assert forall k :: 0 <= k < 14 ==> n[k] != 0;
    KnownUnits(n);
    assert KnownAs(n) == n[..13];
  }

  /** Registered in an empty directory, this name is not found, and its first thirteen units are. */
  lemma PadInsideMissed(up: unit -> unit, s: Entry, es: seq<Entry>, own: Key, head: Key)
    requires IsUpper(up) && IsBlock(es, Name(PadInside(), true, s))
    requires HasName(own.buf, PadInside()) && own.loss && !own.noLfn
    requires HasName(head.buf, PadInside()[..13]) && head.loss && !head.noLfn
    ensures var t := Empty(3);
            && Find(up, t, own) == Missing && Find(up, Registered(t, 0, es), own) == Missing
            && Find(up, t, head) == Missing && Find(up, Registered(t, 0, es), head) == Found(2, 32)
  {
    hide KnownAs, PadInside, IsBlock, See;
    var t, n := Empty(3), Name(PadInside(), true, s);
    PadInsideKnown();
    BlockNotEmpty(es, n);
    FreeMissing(up, t, 0, RESET, own);
    FreeMissing(up, t, 0, RESET, head);
    OthersAsBefore(up, t, 0, es, n, n.units, own);
    RegisteredIsFound(up, t, 0, es, n, n.units[..13], head);
  }

  /** A directory of k entries of zeros. */
  function Empty(k: nat): (t: seq<Entry>)
    ensures |t| == k && forall i :: 0 <= i < k ==> t[i][0] == 0
  {
    var e: Entry := seq(32, i => 0);
    seq(k, i => e)
  }

  /** The condition fails to hold only where a long name was left without its short name. */
  lemma AdoptedOnlyOrphans(up: unit -> unit, t: seq<Entry>, a: nat, n: Name, key: Key)
    requires a <= |t| && Arriving(up, t, a, key).Pass? && Adopted(Arriving(up, t, a, key).st, n, key)
    ensures !n.long && !key.noLfn && a > 0 && IsLfn(t[a - 1])
  {
    if key.noLfn || a == 0 || !IsLfn(t[a - 1]) { ArrivesReset(up, t, a, key); }
  }

  /** A free entry is not what is found. */
  lemma NotFoundFree(up: unit -> unit, t: seq<Entry>, a: nat, st: Scan, key: Key)
    requires a < |t| && IsFree(t[a])
    ensures var f := FindFrom(up, t, a, st, key); f.Found? ==> f.at > a
  {
    if t[a][0] != 0 { FoundFrom(up, t, a + 1, RESET.(sum := st.sum), key); }
  }

  lemma {:induction false} FoundFrom(up: unit -> unit, t: seq<Entry>, i: nat, st: Scan, key: Key)
    ensures var f := FindFrom(up, t, i, st, key); f.Found? ==> f.at >= i
    decreases |t| - i
  {
    if i < |t| && See(up, st, t[i], i, key).Pass? { FoundFrom(up, t, i + 1, See(up, st, t[i], i, key).st, key); }
  }

  /** An entry of a long name "A" for the short name s, which is not there: the long name is missing. With s
      in the deleted entry after it, a short name that has no long one, it is found, at s. */
  lemma OrphanAdopted(up: unit -> unit, s: Entry, gone: Entry, key: Key)
    requires IsUpper(up) && IsSfn(s) && gone[0] as nat == DELETED && HasName(key.buf, [65]) && !key.noLfn
    requires s[..11] != key.sfn
    ensures var t := [OrphanOf(SumOf(s, 11)), gone];
            Find(up, t, key) == Missing && Find(up, t[1 := s], key) == Found(1, 0)
  {
    hide CmpGood, Taken, UnitOf, PickGood, PartHeld;
    var e := OrphanOf(SumOf(s, 11));
    OrphanIsPart(SumOf(s, 11));
    SeePart(up, RESET, e, 0, [65], 1, SumOf(s, 11), key);
    CmpPlain(up, key.buf, [65], [e], [65], SumOf(s, 11));
    assert [e][0] == e;
    var t, st := [e, gone], Scan(0, SumOf(s, 11) as nat, 0);
    assert See(up, RESET, e, 0, key) == Pass(st);
    assert FindFrom(up, t, 2, RESET.(sum := st.sum), key) == Missing;
    assert FindFrom(up, t, 1, st, key) == Missing;
    assert t[1 := s][0] == e && t[1 := s][1] == s && See(up, st, s, 1, key) == Hit;
    assert FindFrom(up, t[1 := s], 1, st, key) == Found(1, 0);
  }

  /** The only part of long name "A" for a short name with checksum sum. */
  function OrphanOf(sum: byte): (e: Entry) {
    [65, 65, 0, 0, 0, 255, 255, 255, 255, 255, 255, ATTR_LFN, 0, sum, 255, 255,
     255, 255, 255, 255, 255, 255, 255, 255, 255, 255, 0, 0, 255, 255, 255, 255]
  }

  lemma OrphanIsPart(sum: byte)
    ensures IsPart(OrphanOf(sum), [65], 1, sum) && AreParts([OrphanOf(sum)], [65], sum) && Spells([65])
    ensures EndsName([65], 0)
  {
    var e := OrphanOf(sum);
    hide UnitOf, Stored, Ended, EndsName;
    forall k | 0 <= k < 13 ensures UnitOf(e, k) == Stored([65], 0, k) {
      OrphanUnit(sum, k);
      OrphanStored(k);
    }
    OrphanEnds();
    assert [e][0] == e;
  }

  lemma OrphanUnit(sum: byte, k: nat)
    requires k < 13
    ensures UnitOf(OrphanOf(sum), k) == if k == 0 then 65 else if k == 1 then 0 else PAD
  {
    hide OrphanOf;
    var e := OrphanOf(sum);
    assert e[1] == 65 && e[2] == 0 && e[3] == 0 && e[4] == 0 by { OrphanBytes(sum); }
    assert k >= 2 ==> e[Place(k)] == 255 && e[Place(k) + 1] == 255 by { OrphanBytes(sum); }
  }

  lemma OrphanBytes(sum: byte)
    ensures var e := OrphanOf(sum);
            e[1] == 65 && e[2] == 0 && e[3] == 0 && e[4] == 0
            && forall i :: (5 <= i < 11 || 14 <= i < 26 || 28 <= i < 32) ==> e[i] == 255
  {
  }

  lemma OrphanEnds()
    ensures EndsName([65], 0)
  {
    OrphanStored(12);
    StoredNext([65], 0, 12);
  }

  lemma {:induction false} OrphanStored(k: nat)
    ensures Stored([65], 0, k) == if k == 0 then 65 else if k == 1 then 0 else PAD
  {
    if k > 0 {
      OrphanStored(k - 1);
      StoredNext([65], 0, k - 1);
      StoredNext([65], 0, k);
    }
  }

  /** Over a free block and over one that was passed, a scan comes to the same end. */
  lemma AfterBlock(up: unit -> unit, t: seq<Entry>, r: seq<Entry>, a: nat, k: nat, st: Scan, s: Scan, key: Key)
    requires k > 0 && FreeBlock(t, a, k) && NoneAfterEnd(t) && |r| == |t| && forall i :: a + k <= i < |t| ==>
               r[i] == t[i]
    requires s.ord == NO_ORDER && s.blk == NO_BLOCK
    ensures FindFrom(up, r, a + k, s, key) == FindFrom(up, t, a, st, key)
  {
    if i :| a <= i < a + k && t[i][0] == 0 {
      FreeMissing(up, r, a + k, s, key);
      FreeMissing(up, t, a, st, key);
    } else {
      PassDeleted(up, t, a, a + k, st, key);
      SumForgotten(up, t, r, a + k, s, RESET.(sum := st.sum), key);
    }
  }

  lemma {:induction false} PassDeleted(up: unit -> unit, t: seq<Entry>, i: nat, j: nat, st: Scan, key: Key)
    requires i < j <= |t| && forall k :: i <= k < j ==> t[k][0] as nat == DELETED
    ensures FindFrom(up, t, i, st, key) == FindFrom(up, t, j, RESET.(sum := st.sum), key)
    decreases j - i
  {
    if i + 1 < j { PassDeleted(up, t, i + 1, j, RESET.(sum := st.sum), key); }
  }

  /** What a reset scan remembers as checksum does not matter. */
  lemma {:induction false} SumForgotten(up: unit -> unit, t: seq<Entry>, r: seq<Entry>, i: nat, s: Scan, st: Scan,
                                        key: Key)
    requires i <= |t| == |r| && forall k :: i <= k < |t| ==> r[k] == t[k]
    requires s == st || (s.ord == NO_ORDER && s.blk == NO_BLOCK && st == s.(sum := st.sum))
    ensures FindFrom(up, r, i, s, key) == FindFrom(up, t, i, st, key)
    decreases |t| - i
  {
    if i < |t| {
      var x, y := See(up, s, r[i], i, key), See(up, st, t[i], i, key);
      if x.Pass? && y.Pass? { SumForgotten(up, t, r, i + 1, x.st, y.st, key); }
    }
  }

  // ---- reading a registered name back

  /** What a part of a registered name does when reading. */
  lemma ReadPart(st: Scan, e: Entry, i: nat, n: seq<unit>, ord: nat, sum: byte)
    requires 1 <= ord <= 20 && IsPart(e, n, ord, sum)
    ensures var s := if EndsName(n, 13 * (ord - 1)) then Scan(ord, sum as nat, 32 * i) else st;
            SeeRead(st, e, i)
            == Pass(s.(ord := if s.ord == ord && s.sum == sum as nat && PickGood(e) then ord - 1 else NO_ORDER))
  {
    hide UnitOf, Taken, PickGood, EndsName;
    OrderOf(e, n, ord, sum);
  }

  /** Where reading from entry i on stands when it comes to entry a, starting anew after each object. */
  function Arrived(t: seq<Entry>, i: nat, a: nat, st: Scan): Scan
    requires i <= a <= |t|
    decreases a - i
  {
    if i == a then st
    else match SeeRead(st, t[i], i)
         case Pass(s) => Arrived(t, i + 1, a, s)
         case Hit => Arrived(t, i + 1, a, Fresh(LongNameOf(st, t[i])))
         case End => st
  }

  /** A call of dir_read starts with no order and no checksum. */
  function Fresh(blk: nat): Scan { Scan(NO_ORDER, NO_ORDER, blk) }

  lemma {:induction false} ArrivedOn(t: seq<Entry>, i: nat, j: nat, st: Scan)
    requires i <= j < |t| && forall k :: i <= k < j ==> t[k][0] != 0
    requires SeeRead(Arrived(t, i, j, st), t[j], j).Pass?
    ensures Arrived(t, i, j + 1, st) == SeeRead(Arrived(t, i, j, st), t[j], j).st
    decreases j - i
  {
    if i < j { ArrivedOn(t, i + 1, j, AfterEntry(st, t[i], i)); }
  }

  function AfterEntry(st: Scan, e: Entry, i: nat): Scan {
    match SeeRead(st, e, i)
    case Pass(s) => s
    case Hit => Fresh(LongNameOf(st, e))
    case End => st
  }

  lemma {:induction false} ArrivedSplit(t: seq<Entry>, i: nat, j: nat, a: nat, st: Scan)
    requires i <= j <= a <= |t| && forall k :: i <= k < a ==> t[k][0] != 0
    ensures Arrived(t, i, a, st) == Arrived(t, j, a, Arrived(t, i, j, st))
    decreases j - i
  {
    if i < j { ArrivedSplit(t, i + 1, j, a, AfterEntry(st, t[i], i)); }
  }

  lemma {:induction false} ArrivedSame(t: seq<Entry>, r: seq<Entry>, i: nat, a: nat, st: Scan)
    requires i <= a <= |t| == |r| && forall k :: i <= k < a ==> r[k] == t[k]
    ensures Arrived(r, i, a, st) == Arrived(t, i, a, st)
    decreases a - i
  {
    if i < a && t[i][0] != 0 { ArrivedSame(t, r, i + 1, a, AfterEntry(st, t[i], i)); }
  }

  /** After j parts of a block, more than are passed over, reading has the start and the checksum of those
      that stand for the name, and counts on as long as they are valid. */
  lemma {:induction false} ReadParts(t: seq<Entry>, a: nat, es: seq<Entry>, n: Name, st: Scan, j: nat)
    requires IsBlock(es, n) && StandsAt(t, a, es) && Passes(n) < j <= PartsOf(n)
    ensures Arrived(t, a, a + j, st)
         == Scan(if AllGood(es[Passes(n)..j]) then PartsOf(n) - j else NO_ORDER, SumOf(n.sfn, 11) as nat,
                 32 * (a + Passes(n)))
    decreases j
  {
    hide SeeRead, IsPart, PickGood, EndsName, Passes;
    var e, x := es[j - 1], Passes(n);
    PartOfBlock(es, n, j - 1);
    assert t[a + (j - 1)] == e;
    BlockNoEnd(t, a, es, n);
    if j - 1 > x { ReadParts(t, a, es, n, st, j - 1); }
    ReadPart(Arrived(t, a, a + j - 1, st), e, a + j - 1, n.units, PartsOf(n) - (j - 1), SumOf(n.sfn, 11));
    ArrivedOn(t, a, a + j - 1, st);
    assert es[x..j] == es[x..j - 1] + [e];
    GoodAppend(es[x..j - 1], e);
  }

  lemma BlockNoEnd(t: seq<Entry>, a: nat, es: seq<Entry>, n: Name)
    requires IsBlock(es, n) && StandsAt(t, a, es)
    ensures forall k :: a <= k < a + |es| ==> t[k][0] != 0
  {
    forall k | a <= k < a + |es| ensures t[k][0] != 0 {
      BlockLive(es, n, k - a);
      assert t[a + (k - a)] == es[k - a];
    }
  }

  /** The start that reading tells of the long name of a registered object, if any. */
  function ReadTold(n: Name, a: nat, st: Scan): nat {
    if !n.long then LongNameOf(st, n.sfn)
    else if |KnownAs(n.units)| <= MAX_LFN then 32 * (a + Passes(n))
    else NO_BLOCK
  }

  /** The parts that stand for a name are valid, and give that name, unless it is too long. */
  lemma PartsRead(es: seq<Entry>, n: Name, b: Buffer)
    requires IsBlock(es, n) && n.long
    ensures Passes(n) < PartsOf(n)
    ensures AllGood(es[Passes(n)..PartsOf(n)]) <==> |KnownAs(n.units)| <= MAX_LFN
    ensures |KnownAs(n.units)| <= MAX_LFN ==> HasName(PickedParts(b, es[Passes(n)..PartsOf(n)]), KnownAs(n.units))
  {
    hide KnownAs, Spells, PickGood, IsPart, HasName, PickedParts;
    var P, x, k, sum := PartsOf(n), Passes(n), KnownAs(n.units), SumOf(n.sfn, 11);
    KnownUnits(n.units);
    assert es[..P][x..] == es[x..P];
    if |k| <= MAX_LFN {
      KnownParts(es[..P], n.units, sum);
      PutPick(b, es[x..P], k, sum);
      AllPartsGood(es[x..P], k, sum);
    } else {
      LongIs20(n.units);
      PartOfBlock(es, n, 0);
      KnownTooLong(u => u, b, es[0], n.units, sum);
      assert es[x..P][0] == es[0];
    }
  }

  /** Where reading stands when it comes to the short name of a registered name. */
  lemma BlockRead(t: seq<Entry>, a: nat, es: seq<Entry>, n: Name, st: Scan)
    requires IsBlock(es, n) && StandsAt(t, a, es)
    ensures LongNameOf(Arrived(t, a, a + PartsOf(n), st), n.sfn) == ReadTold(n, a, st)
  {
    hide KnownAs, Passes, AllGood, AreParts;
    if n.long {
      PartsRead(es, n, NoUnits());
      ReadParts(t, a, es, n, st, PartsOf(n));
    }
  }

  /** A live entry of a file or a directory, to which reading comes: neither a volume label nor an entry of
      a long name, nor one of the two dot entries. */
  predicate IsObject(e: Entry) { !IsFree(e) && e[0] != 46 && Attr(e) % 32 != 8 && Attr(e) != ATTR_LFN }

  /** Reading from an entry before an object comes to one before it, or to it. */
  lemma {:induction false} ComesTo(t: seq<Entry>, i: nat, a: nat, st: Scan)
    requires i <= a < |t| && IsObject(t[a]) && forall k :: i <= k < a ==> t[k][0] != 0
    ensures var f := ReadFrom(t, i, st);
            && f.Found? && i <= f.at <= a
            && (if f.at == a then f.blk == LongNameOf(Arrived(t, i, a, st), t[a])
                else Arrived(t, i, a, st) == Arrived(t, f.at + 1, a, Fresh(f.blk)))
    decreases a - i
  {
    hide ReadStep, LongNameOf;
    if i < a && SeeRead(st, t[i], i).Pass? { ComesTo(t, i + 1, a, SeeRead(st, t[i], i).st); }
  }

  /** Reading that starts at a registered name comes to it, and says whether and where it has a long name;
      picking its parts gives the name that they stand for. */
  lemma ReadsBack(t: seq<Entry>, a: nat, es: seq<Entry>, n: Name, st: Scan, b: Buffer)
    requires IsBlock(es, n) && StandsAt(t, a, es) && n.sfn[0] != 46
    ensures ReadFrom(t, a, st) == Found(a + PartsOf(n), ReadTold(n, a, st))
    ensures n.long && |KnownAs(n.units)| <= MAX_LFN ==>
              HasName(PickedParts(b, t[a + Passes(n)..a + PartsOf(n)]), KnownAs(n.units))
  {
    hide Arrived, ReadFrom, PickedParts;
    hide KnownAs, Passes, AreParts, ReadTold, HasName;
    var P, x := PartsOf(n), Passes(n);
    assert t[a + P] == n.sfn;
    BlockLive(es, n, P);
    BlockNoEnd(t, a, es, n);
    BlockRead(t, a, es, n, st);
    ComesTo(t, a, a + P, st);
    NoObjects(t, a, es, n, 0, st);
    if n.long {
      assert t[a + x..a + P] == es[x..P] by { assert forall j :: 0 <= j < |es| ==> t[a + j] == es[j]; }
      PartsRead(es, n, b);
    }
  }

  /** The parts of a name are no objects. */
  lemma {:induction false} NoObjects(t: seq<Entry>, a: nat, es: seq<Entry>, n: Name, j: nat, st: Scan)
    requires IsBlock(es, n) && StandsAt(t, a, es) && j <= PartsOf(n)
    ensures var f := ReadFrom(t, a + j, st); f.Found? ==> f.at >= a + PartsOf(n)
    decreases PartsOf(n) - j
  {
    hide IsPart, AreParts, ReadStep;
    if j < PartsOf(n) {
      PartOfBlock(es, n, j);
      assert t[a + j] == es[j];
      ReadPart(st, es[j], a + j, n.units, PartsOf(n) - j, SumOf(n.sfn, 11));
      NoObjects(t, a, es, n, j + 1, SeeRead(st, es[j], a + j).st);
    } else {
      ReadsOn(t, a + j, st);
    }
  }

  // ---- listing a directory

  lemma {:induction false} ReadsOn(t: seq<Entry>, i: nat, st: Scan)
    ensures var f := ReadFrom(t, i, st); f.Found? ==> i <= f.at < |t|
    decreases |t| - i
  {
    if i < |t| && SeeRead(st, t[i], i).Pass? { ReadsOn(t, i + 1, SeeRead(st, t[i], i).st); }
  }

  /** The objects that reading gives one after the other, from entry i on. */
  function Listing(t: seq<Entry>, i: nat, blk: nat): (r: seq<Found>)
    ensures forall j :: 0 <= j < |r| ==> r[j].Found?
    decreases |t| - i
  {
    ReadsOn(t, i, Fresh(blk));
    match ReadFrom(t, i, Fresh(blk))
    case Missing => []
    case Found(at, b) => [Found(at, b)] + Listing(t, at + 1, b)
  }

  function NoUnits(): (b: Buffer) {
    var s: seq<unit> := seq(256, i => 0);
    s
  }

  /** A listing has every object in it, with the long name that reading has come to before it. */
  lemma {:induction false} Listed(t: seq<Entry>, i: nat, a: nat, blk: nat)
    requires i <= a < |t| && IsObject(t[a]) && forall k :: i <= k < a ==> t[k][0] != 0
    ensures Found(a, LongNameOf(Arrived(t, i, a, Fresh(blk)), t[a])) in Listing(t, i, blk)
    decreases a - i
  {
    hide ReadFrom, Arrived, LongNameOf, IsObject;
    ComesTo(t, i, a, Fresh(blk));
    ReadsOn(t, i, Fresh(blk));
    var f := ReadFrom(t, i, Fresh(blk));
    if f.at < a { Listed(t, f.at + 1, a, f.blk); }
  }

  /** What reading gives is an object, and none comes before it. */
  lemma {:induction false} ReadsObject(t: seq<Entry>, i: nat, st: Scan)
    ensures var f := ReadFrom(t, i, st);
            f.Found? ==> i <= f.at < |t| && IsObject(t[f.at]) && forall k :: i <= k < f.at ==> t[k][0] != 0
    decreases |t| - i
  {
    hide ReadStep, LongNameOf;
    if i < |t| && SeeRead(st, t[i], i).Pass? { ReadsObject(t, i + 1, SeeRead(st, t[i], i).st); }
  }

  /** A listing has nothing else in it, and goes from the front to the back. */
  lemma {:induction false} ListsObjects(t: seq<Entry>, i: nat, blk: nat, j: nat)
    requires j < |Listing(t, i, blk)|
    ensures var a := Listing(t, i, blk)[j].at;
            i <= a < |t| && IsObject(t[a]) && (forall k :: i <= k < a ==> t[k][0] != 0)
            && (j > 0 ==> Listing(t, i, blk)[j - 1].at < a)
    decreases |t| - i
  {
    hide ReadFrom;
    ReadsObject(t, i, Fresh(blk));
    var f := ReadFrom(t, i, Fresh(blk));
    assert Listing(t, i, blk) == [f] + Listing(t, f.at + 1, f.blk);
    if j > 0 {
      var rest := Listing(t, f.at + 1, f.blk);
      ListsObjects(t, f.at + 1, f.blk, j - 1);
      assert Listing(t, i, blk)[j] == rest[j - 1];
      if j > 1 { assert Listing(t, i, blk)[j - 1] == rest[j - 2]; }
    }
  }

  /** A listing from the top has exactly the objects before the end mark in it. */
  lemma ListedExactly(t: seq<Entry>, a: nat)
    ensures (exists b :: Found(a, b) in Listing(t, 0, NO_BLOCK))
       <==> a < |t| && IsObject(t[a]) && forall k :: 0 <= k < a ==> t[k][0] != 0
  {
    hide IsObject, Arrived, LongNameOf, Listing;
    var l := Listing(t, 0, NO_BLOCK);
    if a < |t| && IsObject(t[a]) && forall k :: 0 <= k < a ==> t[k][0] != 0 { Listed(t, 0, a, NO_BLOCK); }
    if b :| Found(a, b) in l {
      var j :| 0 <= j < |l| && l[j] == Found(a, b);
      ListsObjects(t, 0, NO_BLOCK, j);
    }
  }

  /** Listing a directory from its top gives every name registered in it. A long name is told with the start
      of its parts, unless they stand for one that is too long; a short name without one is told without,
      unless entries that come directly before count down to it and have its checksum. */
  lemma RegisteredIsListed(t: seq<Entry>, a: nat, es: seq<Entry>, n: Name)
    requires IsBlock(es, n) && FreeBlock(t, a, |es|) && n.sfn[0] != 46
    ensures var st := Arrived(t, 0, a, Fresh(NO_BLOCK));
            && Found(a + PartsOf(n), ReadTold(n, a, st)) in Listing(Registered(t, a, es), 0, NO_BLOCK)
            && (!n.long ==> (ReadTold(n, a, st) == NO_BLOCK <==> !(st.ord == 0 && st.sum == SumOf(n.sfn, 11) as nat)))
            && (a == 0 || !IsLfn(t[a - 1]) ==> st.ord == NO_ORDER)
  {
    hide KnownAs, Passes, Arrived, Listing, PartsOf, LongNameOf, ReadTold, IsBlock, StandsAt, IsObject, SumOf;
    var r, st, P := Registered(t, a, es), Arrived(t, 0, a, Fresh(NO_BLOCK)), PartsOf(n);
    RegisteredEnds(t, a, es, n);
    ArrivedSame(t, r, 0, a, Fresh(NO_BLOCK));
    ArrivedSplit(r, 0, a, a + P, Fresh(NO_BLOCK));
    BlockRead(r, a, es, n, st);
    Listed(r, 0, a + P, NO_BLOCK);
    Counting(t, 0, a, Fresh(NO_BLOCK));
    if !n.long { ShortTold(n, a, st); }
    if a > 0 && !IsLfn(t[a - 1]) { ArrivedReset(t, 0, a, Fresh(NO_BLOCK)); }
    if a == 0 { ArrivedNone(t, a, Fresh(NO_BLOCK)); }
  }

  lemma RegisteredEnds(t: seq<Entry>, a: nat, es: seq<Entry>, n: Name)
    requires IsBlock(es, n) && FreeBlock(t, a, |es|) && n.sfn[0] != 46
    ensures var r := Registered(t, a, es);
            && StandsAt(r, a, es) && a + |es| <= |t|
            && a + PartsOf(n) < |r| && r[a + PartsOf(n)] == n.sfn && IsObject(n.sfn)
            && forall k :: 0 <= k < a + PartsOf(n) ==> r[k][0] != 0
  {
    hide AreParts;
    BlockNotEmpty(es, n);
    BlockNoEnd(Registered(t, a, es), a, es, n);
  }

  lemma ShortTold(n: Name, a: nat, st: Scan)
    requires !n.long && (st.ord != NO_ORDER ==> st.blk % 32 == 0)
    ensures ReadTold(n, a, st) == NO_BLOCK <==> !(st.ord == 0 && st.sum == SumOf(n.sfn, 11) as nat)
  {
  }

  /** What block was told before reading starts does not matter. */
  lemma {:induction false} BlockForgotten(t: seq<Entry>, i: nat, a: nat, s: Scan, st: Scan, e: Entry)
    requires i <= a <= |t| && (s == st || (s.ord == NO_ORDER && st == s.(blk := st.blk)))
    ensures LongNameOf(Arrived(t, i, a, s), e) == LongNameOf(Arrived(t, i, a, st), e)
    decreases a - i
  {
    if i < a && t[i][0] != 0 { BlockForgotten(t, i + 1, a, AfterEntry(s, t[i], i), AfterEntry(st, t[i], i), e); }
  }

  lemma ArrivedNone(t: seq<Entry>, a: nat, st: Scan)
    requires a <= |t|
    ensures Arrived(t, a, a, st) == st
  {
  }

  /** Reading that counts has the start of a long name, which is the offset of an entry. */
  lemma {:induction false} Counting(t: seq<Entry>, i: nat, a: nat, st: Scan)
    requires i <= a <= |t| && (st.ord != NO_ORDER ==> st.ord < 192 && st.blk % 32 == 0)
    requires forall k :: i <= k < a ==> t[k][0] != 0
    ensures var s := Arrived(t, i, a, st); s.ord != NO_ORDER ==> s.ord < 192 && s.blk % 32 == 0
    decreases a - i
  {
    if i < a { Counting(t, i + 1, a, AfterEntry(st, t[i], i)); }
  }

  lemma {:induction false} ArrivedReset(t: seq<Entry>, i: nat, a: nat, st: Scan)
    requires i < a <= |t| && !IsLfn(t[a - 1]) && forall k :: i <= k < a ==> t[k][0] != 0
    ensures Arrived(t, i, a, st).ord == NO_ORDER
    decreases a - i
  {
    if i + 1 < a { ArrivedReset(t, i + 1, a, AfterEntry(st, t[i], i)); }
  }

  /** An entry of a long name "A" before the short name s, which has none: reading tells it with that name. */
  lemma OrphanTold(s: Entry)
    requires IsObject(s)
    ensures ReadFrom([OrphanOf(SumOf(s, 11)), s], 0, Fresh(NO_BLOCK)) == Found(1, 0)
    ensures Listing([OrphanOf(SumOf(s, 11)), s], 0, NO_BLOCK) == [Found(1, 0)]
  {
    hide OrphanOf, PickGood, IsPart, AreParts, EndsName;
    var e := OrphanOf(SumOf(s, 11));
    var t, st := [e, s], Scan(0, SumOf(s, 11) as nat, 0);
    OrphanIsPart(SumOf(s, 11));
    AllPartsGood([e], [65], SumOf(s, 11));
    assert [e][0] == e && PickGood(e);
    ReadPart(Fresh(NO_BLOCK), e, 0, [65], 1, SumOf(s, 11));
    assert SeeRead(Fresh(NO_BLOCK), e, 0) == Pass(st);
    assert ReadFrom(t, 1, st) == Found(1, 0);
    assert Listing(t, 2, 0) == [];
  }
}
