/** The state of an open file as a value, and the steps its operations are made of. */
module FileState {
  import opened Bytes
  import opened Geometry
  import opened FatSpec
  import opened Window
  import opened ChainSpec
  import opened FileSpec
  import opened DirEntry

  /** The chain of a file: none, or one that starts at sclust and that nothing links into. */
  ghost predicate ChainOf(f: seq<nat>, chain: seq<nat>, sclust: nat) {
    if chain == [] then sclust == 0 else IsChain(f, chain) && chain[0] == sclust && Unlinked(f, sclust)
  }

  /** The disk as the file sees it: the logical disk under a changed buffer. */
  ghost function Viewed(l: seq<Sector>, sect: nat, dirty: bool, b: Sector): (v: seq<Sector>)
    ensures |v| == |l|
  {
    if dirty && sect < |l| then l[sect := b] else l
  }

  /** The volume is sound, and the file's chain is one of its chains and not in the window. */
  ghost predicate Rooted(g: Geometry, end: nat, f: seq<nat>, free: nat, winsect: nat, chain: seq<nat>, sclust: nat) {
    && Laid(g, end) && end <= DWORD_MAX && |f| == g.nFatent
    && Forest(f) && CountOk(f, free)
    && ChainOf(f, chain, sclust) && AreClusters(g, chain)
    && !Owns(g, chain, winsect)
  }

  /** The outcome of a check as a value, so that a proof about a step takes it whole from the lemma
      about that step. */
  datatype Verdict = Sound | Unsound

  ghost function JudgeRoot(g: Geometry, end: nat, f: seq<nat>, free: nat, winsect: nat, chain: seq<nat>,
                           sclust: nat): (v: Verdict) {
    if Rooted(g, end, f, free, winsect, chain, sclust) then Sound else Unsound
  }

  datatype State = State(
    g: Geometry, end: nat,                       // the volume
    f: seq<nat>, free: nat, winsect: nat,        // its FAT, free count and window
    l: seq<Sector>,                              // the logical disk
    chain: seq<nat>, sclust: nat, size: nat,     // the file
    fptr: nat, sect: nat, dirty: bool, b: Sector)
  {
    ghost function Root(): Verdict { JudgeRoot(g, end, f, free, winsect, chain, sclust) }

    /** The buffer holds sector `sect`, changed when dirty; it is the sector of the file pointer when
        that is inside a sector. */
    ghost predicate Buffered()
      requires Covers(g, chain, size) && fptr <= size
    {
      && (sect != 0 ==> sect < |l| && g.InData(sect) && !g.InFat(sect) && !g.InMirror(sect))
      && (sect != 0 && !dirty ==> b == l[sect])
      && (dirty ==> sect != 0 && Owns(g, chain, sect))
      && (fptr % 512 != 0 ==> sect == SectorOf(g, chain, fptr / 512))
    }

    /** What holds of an open file between any two steps of an operation. */
    ghost predicate Intact() {
      Root().Sound? && |l| == end && Covers(g, chain, size) && fptr <= size <= DWORD_MAX && Buffered()
    }

    ghost function View(): (v: seq<Sector>)
      ensures |v| == |l|
    {
      Viewed(l, sect, dirty, b)
    }
  }

  ghost function Judge(s: State): (v: Verdict) {
    if s.Intact() then Sound else Unsound
  }

  /** The chain is long enough for the file and lies on the disk. */
  ghost predicate Readable(s: State) {
    Covers(s.g, s.chain, s.size) && OnDisk(s.g, s.chain, |s.l|)
  }

  /** The bytes of the file. */
  ghost function FileBytes(s: State): (c: seq<byte>)
    requires Judge(s).Sound? || Readable(s)
    ensures |c| == s.size
  {
    assert Readable(s) by { if Judge(s).Sound? { AllOnDisk(s.g, s.end, s.chain); } }
    Content(s.g, s.View(), s.chain, s.size)
  }

  // ---------------------------------------------------------------- what an operation leaves alone

  ghost predicate SameOn(g: Geometry, t: seq<nat>, l: seq<Sector>, l': seq<Sector>) {
    |l'| == |l| && forall i :: 0 <= i < |l| && Owns(g, t, i) ==> l'[i] == l[i]
  }

  /** Everything but this file: every chain apart from it is the same chain, with the same bytes, the
      buffer has not moved to it, and no sector outside the FATs and the data area changes. */
  ghost predicate KeepsOthers(s: State, s': State) {
    && s'.g == s.g && |s'.l| == |s.l| && |s'.f| == |s.f|
    && (forall i :: 0 <= i < |s.l| && !s.g.InFat(i) && !s.g.InMirror(i) && !s.g.InData(i) ==> s'.l[i] == s.l[i])
    && (forall t :: IsChain(s.f, t) && Apart(s.chain, t) ==>
          IsChain(s'.f, t) && Apart(s'.chain, t) && SameOn(s.g, t, s.l, s'.l)
          && (s'.sect == s.sect || !Owns(s.g, t, s'.sect)))
  }

  /** Clusters neither appear nor get lost: each is free, or the file's, or as before. */
  ghost function Clusters(s: State): nat { |s.chain| + FreeCount(s.f) }

  /** From s the file became t, which is sound and has bytes c; everything else is as it was. */
  ghost function Became(s: State, t: State, c: seq<byte>): (v: Verdict) {
    if Judge(t).Sound? && FileBytes(t) == c && KeepsOthers(s, t) && Clusters(t) == Clusters(s) then Sound else Unsound
  }

  lemma BecameThen(s: State, t: State, c: seq<byte>, u: State, d: seq<byte>)
    requires Became(s, t, c).Sound? && Became(t, u, d).Sound?
    ensures Became(s, u, d).Sound?
  {
  }

  lemma BecameGives(s: State, t: State, c: seq<byte>)
    requires Became(s, t, c).Sound?
    ensures Judge(t).Sound? && FileBytes(t) == c
  {
  }

  lemma BecameNothing(s: State)
    requires Judge(s).Sound?
    ensures Became(s, s, FileBytes(s)).Sound?
  {
    OwnWrites(s, s);
  }

  /** Writing the file's own sectors keeps the others. */
  lemma OwnWrites(s: State, s': State)
    requires Laid(s.g, s.end) && s'.g == s.g && |s.l| == |s'.l| == s.end && |s.f| == s.g.nFatent
    requires AreClusters(s.g, s.chain)
    requires s'.f == s.f && s'.chain == s.chain && (s'.sect == s.sect || Owns(s.g, s.chain, s'.sect))
    requires forall i :: 0 <= i < |s.l| && !Owns(s.g, s.chain, i) ==> s'.l[i] == s.l[i]
    ensures KeepsOthers(s, s')
  {
    AllOnDisk(s.g, s.end, s.chain);
    forall t, i | IsChain(s.f, t) && Apart(s.chain, t) && Owns(s.g, t, i) ensures !Owns(s.g, s.chain, i) {
      OwnersApart(s.g, s.chain, t, i);
    }
  }

  /** FAT changes that keep the other chains keep the others. */
  lemma FatWrites(s: State, s': State)
    requires Laid(s.g, s.end) && s'.g == s.g && |s.l| == s.end && |s.f| == |s'.f| == s.g.nFatent
    requires SameButFat(s.g, s.l, s'.l)
    requires forall t :: IsChain(s.f, t) && Apart(s.chain, t) ==> IsChain(s'.f, t) && Apart(s'.chain, t)
    requires s'.sect == s.sect
    ensures KeepsOthers(s, s')
  {
    forall t | IsChain(s.f, t) && Apart(s.chain, t) ensures SameOn(s.g, t, s.l, s'.l) { AllOnDisk(s.g, s.end, t); }
  }

  lemma Limits(s: State)
    requires Judge(s).Sound?
    ensures s.sect <= DWORD_MAX && s.fptr <= s.size <= DWORD_MAX && |s.l| == s.end <= DWORD_MAX
    ensures Laid(s.g, s.end) && |s.f| == s.g.nFatent <= DWORD_MAX && Covers(s.g, s.chain, s.size)
    ensures CountOk(s.f, s.free)
  {
  }

  // ---------------------------------------------------------------- the current cluster

  /** Cluster clst holds byte p of the file. */
  ghost predicate Holding(g: Geometry, chain: seq<nat>, p: nat, clst: nat) {
    g.csize > 0 && Quot(p / 512, g.csize) < |chain| && clst == chain[Quot(p / 512, g.csize)]
  }

  /** On a cluster boundary, the entry of the cluster before names the cluster of the file pointer. */
  lemma NextCluster(s: State, clst: nat)
    requires Judge(s).Sound? && s.fptr > 0 && s.fptr % 512 == 0 && Rem(s.fptr / 512, s.g.csize) == 0
    requires Holding(s.g, s.chain, s.fptr - 1, clst)
    ensures 2 <= clst < |s.f|
    ensures if Quot(s.fptr / 512, s.g.csize) < |s.chain|
            then Holding(s.g, s.chain, s.fptr, s.f[clst]) && 2 <= s.f[clst] < |s.f|
            else Quot(s.fptr / 512, s.g.csize) == |s.chain| && clst == s.chain[|s.chain| - 1] && s.f[clst] >= |s.f|
  {
    assert (s.fptr - 1) / 512 == s.fptr / 512 - 1;
    QuotBefore(s.fptr / 512, s.g.csize);
    ChainNext(s.f, s.chain, Quot(s.fptr / 512, s.g.csize) - 1);
  }

  /** The cluster after that of the byte before is the cluster of a file pointer on a cluster boundary. */
  lemma AfterBoundary(g: Geometry, p: nat)
    requires g.csize > 0 && p > 0 && p % 512 == 0 && Rem(p / 512, g.csize) == 0
    ensures Quot(p / 512, g.csize) == Quot((p - 1) / 512, g.csize) + 1
    ensures p / 512 == ClusterSectors(g.csize, Quot(p / 512, g.csize))
  {
    assert (p - 1) / 512 == p / 512 - 1;
    QuotBefore(p / 512, g.csize);
    QuotRem(p / 512, g.csize);
  }

  /** Off a cluster boundary, the file pointer is in the cluster of the byte before. */
  lemma SameCluster(s: State, clst: nat)
    requires s.fptr > 0 && Holding(s.g, s.chain, s.fptr - 1, clst)
    requires s.fptr % 512 != 0 || Rem(s.fptr / 512, s.g.csize) != 0
    ensures Holding(s.g, s.chain, s.fptr, clst)
  {
    if s.fptr % 512 != 0 {
      assert (s.fptr - 1) / 512 == s.fptr / 512;
    } else {
      assert (s.fptr - 1) / 512 == s.fptr / 512 - 1;
      QuotBefore(s.fptr / 512, s.g.csize);
    }
  }

  /** After n bytes within a sector, or n whole sectors within a cluster, the cluster holds the last byte. */
  lemma HoldsBytes(g: Geometry, chain: seq<nat>, p: nat, n: nat, clst: nat)
    requires Holding(g, chain, p, clst) && n > 0 && p % 512 + n <= 512
    ensures Holding(g, chain, p + n - 1, clst)
  {
    assert (p + n - 1) / 512 == p / 512;
  }

  lemma HoldsSectors(g: Geometry, chain: seq<nat>, p: nat, n: nat, clst: nat)
    requires Holding(g, chain, p, clst) && n > 0 && p % 512 == 0 && Rem(p / 512, g.csize) + n <= g.csize
    ensures Holding(g, chain, p + 512 * n - 1, clst)
  {
    var q := p / 512;
    QuotRem(q, g.csize);
    QuotUnique(q + n - 1, g.csize, Quot(q, g.csize), Rem(q, g.csize) + n - 1);
    assert (p + 512 * n - 1) / 512 == q + n - 1;
  }

  lemma HeadCluster(s: State)
    requires Judge(s).Sound?
    ensures if s.sclust == 0 then s.chain == [] else s.chain != [] && s.sclust == s.chain[0] && 2 <= s.sclust < |s.f|
    ensures Quot(0, s.g.csize) == 0
  {
  }

  /** A file pointer before the end lies in the chain. */
  lemma InChain(s: State)
    requires Judge(s).Sound? && s.fptr < s.size
    ensures Quot(s.fptr / 512, s.g.csize) < |s.chain|
  {
    QuotAtLeast(s.fptr / 512, s.g.csize, |s.chain|);
    assert s.fptr / 512 < SectorsFor(s.size);
  }

  /** Inside a sector before the end, the buffer holds the sector of the file pointer. */
  lemma BufferHere(s: State)
    requires Judge(s).Sound? && s.fptr < s.size && s.fptr % 512 != 0
    ensures s.fptr / 512 < SectorCount(s.g, s.chain) && s.sect == SectorOf(s.g, s.chain, s.fptr / 512)
  {
    InChain(s);
    QuotAtLeast(s.fptr / 512, s.g.csize, |s.chain|);
  }

  /** Inside a sector, the buffer holds the sector of the file pointer. */
  lemma BufferCluster(s: State, clst: nat)
    requires Judge(s).Sound? && Holding(s.g, s.chain, s.fptr, clst) && s.fptr % 512 != 0
    ensures s.fptr / 512 < SectorCount(s.g, s.chain) && s.sect == SectorOf(s.g, s.chain, s.fptr / 512)
  {
    QuotAtLeast(s.fptr / 512, s.g.csize, |s.chain|);
  }

  /** The sectors from that of the file pointer to the end of its cluster, n of which are in the data
      area and not in the window. */
  lemma SectorHere(s: State, clst: nat, n: nat)
    requires Judge(s).Sound? && Holding(s.g, s.chain, s.fptr, clst) && n > 0
    requires Rem(s.fptr / 512, s.g.csize) + n <= s.g.csize
    ensures s.fptr / 512 < SectorCount(s.g, s.chain) && Clst2Sect(s.g, clst) != 0
    ensures var s0 := Clst2Sect(s.g, clst) + Rem(s.fptr / 512, s.g.csize);
            s0 == SectorOf(s.g, s.chain, s.fptr / 512) && s.g.fatbase <= s0 && s0 + n <= |s.l|
            && forall i :: s0 <= i < s0 + n ==> !s.g.InFat(i) && !s.g.InMirror(i) && i != s.winsect
  {
    var q := s.fptr / 512;
    QuotAtLeast(q, s.g.csize, |s.chain|);
    AllOnDisk(s.g, s.end, s.chain);
    var s0 := SectorOf(s.g, s.chain, q);
    forall i | s0 <= i < s0 + n ensures Owns(s.g, s.chain, i) {
      SectorRun(s.g, s.chain, q, i - s0);
      SectorOfOwned(s.g, s.chain, q + (i - s0));
    }
    assert Owns(s.g, s.chain, s0 + n - 1);
  }

  // ---------------------------------------------------------------- steps

  /** The window moves to a FAT sector, or shows nothing. */
  lemma WindowStep(s: State, w: nat)
    requires Judge(s).Sound? && (w == s.winsect || w == NO_SECTOR || s.g.InFat(w))
    ensures Became(s, s.(winsect := w), FileBytes(s)).Sound?
  {
    AllOnDisk(s.g, s.end, s.chain);
    OwnWrites(s, s.(winsect := w));
  }

  /** A changed buffer belongs to a data sector that is not in the window. */
  lemma BufferPlace(s: State)
    requires Judge(s).Sound? && s.dirty
    ensures s.g.fatbase <= s.sect < s.end && !s.g.InFat(s.sect) && !s.g.InMirror(s.sect) && s.sect != s.winsect
  {
  }

  /** A changed buffer is written back, or its sector is left in any state. */
  lemma FlushStep(s: State, l': seq<Sector>, ok: bool)
    requires Judge(s).Sound? && s.dirty
    requires |l'| == |s.l| && forall i :: 0 <= i < |l'| && i != s.sect ==> l'[i] == s.l[i]
    requires ok ==> l' == s.l[s.sect := s.b]
    ensures var s' := s.(l := l', dirty := !ok); Became(s, s', FileBytes(s)).Sound?
  {
    var s' := s.(l := l', dirty := !ok);
    OwnWrites(s, s');
    assert s'.View() == s.View();
  }

  /** The buffer takes the content of the sector of the file pointer, or any sector of the file when the
      pointer is on a sector boundary. */
  lemma LoadStep(s: State, q: nat, b': Sector)
    requires Judge(s).Sound? && !s.dirty && q < SectorCount(s.g, s.chain)
    requires s.fptr % 512 != 0 ==> q == s.fptr / 512
    requires OnDisk(s.g, s.chain, |s.l|) && Owns(s.g, s.chain, SectorOf(s.g, s.chain, q))
    requires b' == s.l[SectorOf(s.g, s.chain, q)]
    ensures var s' := s.(sect := SectorOf(s.g, s.chain, q), b := b');
            Became(s, s', FileBytes(s)).Sound?
  {
    AllOnDisk(s.g, s.end, s.chain);
    OwnWrites(s, s.(sect := SectorOf(s.g, s.chain, q), b := b'));
  }

  // ---- reading

  /** The bytes the buffer shows of the sector of the file pointer are bytes of the file. */
  lemma BufferRead(s: State, n: nat)
    requires Judge(s).Sound? && s.fptr % 512 + n <= 512 && n > 0 && s.fptr + n <= s.size
    requires s.fptr / 512 < SectorCount(s.g, s.chain) && s.sect == SectorOf(s.g, s.chain, s.fptr / 512)
    ensures s.b[s.fptr % 512..s.fptr % 512 + n] == FileBytes(s)[s.fptr..s.fptr + n]
  {
    hide Content, SectorOf, SectorCount, AreClusters, Rem, Quot;
    AllOnDisk(s.g, s.end, s.chain);
    SectorOfOwned(s.g, s.chain, s.fptr / 512);
    SectorBytes(s.g, s.View(), s.chain, s.size, s.fptr, n);
  }

  /** n sectors read from the disk, with the changed buffer laid over them if it is one of them. */
  ghost function ReadWithBuffer(s: State, s0: nat, n: nat): (r: seq<byte>)
    requires s0 + n <= |s.l|
    ensures |r| == 512 * n
  {
    var r := Run(s.l, s0, n);
    if s.dirty && s0 <= s.sect < s0 + n then PutBytes(r, 512 * (s.sect - s0), s.b) else r
  }

  lemma BufferLaidOver(s: State, s0: nat, n: nat)
    requires s0 + n <= |s.l|
    ensures ReadWithBuffer(s, s0, n) == Run(s.View(), s0, n)
  {
    if s.dirty && s0 <= s.sect < s0 + n { RunOverlaid(s.l, s0, n, s.sect, s.b); }
  }

  lemma DirectRead(s: State, n: nat)
    requires Judge(s).Sound? && s.fptr % 512 == 0 && n > 0 && s.fptr + 512 * n <= s.size
    requires Rem(s.fptr / 512, s.g.csize) + n <= s.g.csize
    ensures s.fptr / 512 < SectorCount(s.g, s.chain)
    ensures var s0 := SectorOf(s.g, s.chain, s.fptr / 512);
            s0 + n <= |s.l| && ReadWithBuffer(s, s0, n) == FileBytes(s)[s.fptr..s.fptr + 512 * n]
  {
    AllOnDisk(s.g, s.end, s.chain);
    RunBytes(s.g, s.View(), s.chain, s.size, s.fptr / 512, n);
    BufferLaidOver(s, SectorOf(s.g, s.chain, s.fptr / 512), n);
  }

  /** The file pointer moves on, to a sector boundary or within the sector of the buffer. */
  lemma AdvanceStep(s: State, p: nat)
    requires Judge(s).Sound? && p <= s.size
    requires p % 512 != 0 ==> p / 512 < SectorCount(s.g, s.chain) && s.sect == SectorOf(s.g, s.chain, p / 512)
    ensures var s' := s.(fptr := p); Became(s, s', FileBytes(s)).Sound?
  {
    OwnWrites(s, s.(fptr := p));
  }

  // ---- growing

  lemma ChainLink(s: State, i: nat)
    requires Judge(s).Sound? && i < |s.chain|
    ensures 2 <= s.chain[i] < |s.f|
    ensures if i + 1 < |s.chain| then s.f[s.chain[i]] == s.chain[i + 1] && 2 <= s.chain[i + 1] < |s.f|
            else s.f[s.chain[i]] >= |s.f|
  {
    ChainNext(s.f, s.chain, i);
  }

  lemma NoOnes(s: State)
    requires Judge(s).Sound?
    ensures forall c :: 2 <= c < |s.f| ==> s.f[c] != 1
  {
  }

  lemma NoneLeft(s: State)
    requires Judge(s).Sound? && s.free == 0
    ensures NoneFree(s.f)
  {
    FreeBelowZero(s.f, |s.f|);
  }

  /** The first cluster of a file that had none. */
  lemma StartStep(s: State, r: nat, e: nat, l': seq<Sector>, free': nat, w: nat)
    requires Judge(s).Sound? && s.chain == [] && 2 <= r < |s.f| && s.f[r] == 0 && e >= |s.f|
    requires SameButFat(s.g, s.l, l') && s.g.InFat(w) && free' == CountAfterTaking(s.free, |s.f|)
    ensures var s' := s.(f := s.f[r := e], free := free', winsect := w, l := l', chain := [r], sclust := r);
            Became(s, s', FileBytes(s)).Sound?
  {
    var s' := s.(f := s.f[r := e], free := free', winsect := w, l := l', chain := [r], sclust := r);
    Claimed(s.f, r, e);
    TakingCounts(s.f, s.f[r := e], s.free);
    AllOnDisk(s.g, s.end, [r]);
    FatWrites(s, s');
  }

  /** A cluster appended to the chain. */
  ghost function Extended(s: State, r: nat, e: nat, l': seq<Sector>, free': nat, w: nat): (s': State)
    requires s.chain != [] && r < |s.f| && s.chain[|s.chain| - 1] < |s.f|
  {
    s.(f := s.f[r := e][s.chain[|s.chain| - 1] := r], free := free', winsect := w, l := l', chain := s.chain + [r])
  }

  ghost predicate MayExtend(s: State, r: nat, e: nat, l': seq<Sector>, free': nat, w: nat) {
    && Judge(s).Sound? && s.chain != [] && 2 <= r < |s.f| && s.f[r] == 0 && e >= |s.f|
    && s.chain[|s.chain| - 1] < |s.f|
    && SameButFat(s.g, s.l, l') && s.g.InFat(w)
    && free' == CountAfterTaking(s.free, |s.f|)
  }

  lemma ExtendIntact(s: State, r: nat, e: nat, l': seq<Sector>, free': nat, w: nat)
    requires MayExtend(s, r, e, l', free', w)
    ensures Judge(Extended(s, r, e, l', free', w)).Sound? && KeepsOthers(s, Extended(s, r, e, l', free', w))
  {
    hide Forest, IsChain, SectorOf, Rem, Quot, CountOk, Holding;
    var s' := Extended(s, r, e, l', free', w);
    Stretched(s.f, s.chain, r, e);
    TakingCounts(s.f, s'.f, s.free);
    AllOnDisk(s.g, s.end, s.chain);
    AllOnDisk(s.g, s.end, s'.chain);
    ClusterSectorsMonotone(s.g.csize, |s.chain|, |s'.chain|);
    assert s.chain <= s'.chain;
    if s.fptr % 512 != 0 { SectorOfPrefix(s.g, s.chain, s'.chain, s.fptr / 512); }
    if s.dirty { OwnsPrefix(s.g, s.chain, s'.chain, s.sect); }
    FatWrites(s, s');
  }

  lemma ExtendContent(s: State, r: nat, e: nat, l': seq<Sector>, free': nat, w: nat)
    requires MayExtend(s, r, e, l', free', w) && Judge(Extended(s, r, e, l', free', w)).Sound?
    ensures FileBytes(Extended(s, r, e, l', free', w)) == FileBytes(s)
  {
    var s' := Extended(s, r, e, l', free', w);
    AllOnDisk(s.g, s.end, s.chain);
    AllOnDisk(s.g, s.end, s'.chain);
    assert s.chain <= s'.chain;
    ContentPrefix(s.g, s'.View(), s.chain, s'.chain, s.size);
    SameContent(s.g, s'.View(), s.View(), s.chain, s.size);
  }

  lemma ExtendStep(s: State, r: nat, e: nat, l': seq<Sector>, free': nat, w: nat)
    requires MayExtend(s, r, e, l', free', w)
    ensures var s' := Extended(s, r, e, l', free', w);
            Became(s, s', FileBytes(s)).Sound?
  {
    ExtendIntact(s, r, e, l', free', w);
    ExtendContent(s, r, e, l', free', w);
    Stretched(s.f, s.chain, r, e);
  }

  lemma OwnsPrefix(g: Geometry, a: seq<nat>, b: seq<nat>, i: int)
    requires a <= b && Owns(g, a, i)
    ensures Owns(g, b, i)
  {
    var j :| 0 <= j < |a| && InCluster(g, a[j], i);
    assert b[j] == a[j];
  }

  // ---- writing

  function Max(a: nat, b: nat): nat { if a > b then a else b }

  lemma ChainDistinct(s: State)
    requires Judge(s).Sound?
    ensures Distinct(s.chain)
  {
    if s.chain != [] { ChainNoRepeat(s.f, s.chain); }
  }

  /** The state after bytes d are put in the buffer, which shows sector sq. */
  ghost function Stored(s: State, sq: nat, d: seq<byte>): (s': State)
    requires s.fptr % 512 + |d| <= 512
  {
    s.(sect := sq, b := PutBytes(s.b, s.fptr % 512, d), dirty := true, fptr := s.fptr + |d|,
    size := Max(s.size, s.fptr + |d|))
  }

  /** The buffer holds the sector sq of the file pointer, or takes it over unread at the growing edge. */
  ghost predicate MayStore(s: State, sq: nat, d: seq<byte>) {
    && Judge(s).Sound? && |d| > 0 && s.fptr % 512 + |d| <= 512 && s.fptr + |d| <= DWORD_MAX
    && s.fptr / 512 < SectorCount(s.g, s.chain) && sq == SectorOf(s.g, s.chain, s.fptr / 512)
    && (s.sect == sq || (s.fptr % 512 == 0 && s.fptr == s.size && !s.dirty))
  }

  /** Writing within a sector the chain reaches stays within the chain and within the sector. */
  lemma WithinSector(p: nat, n: nat, size: nat, count: nat)
    requires n > 0 && p % 512 + n <= 512 && p / 512 < count && SectorsFor(size) <= count
    ensures SectorsFor(Max(size, p + n)) <= count
    ensures (p + n) % 512 != 0 ==> (p + n) / 512 == p / 512
  {
    var q := p / 512;
    assert p + n <= 512 * q + 512;
  }

  lemma StoreIntact(s: State, sq: nat, d: seq<byte>)
    requires MayStore(s, sq, d)
    ensures Judge(Stored(s, sq, d)).Sound?
  {
    hide Owns, OnDisk, SectorOf, SectorCount, Rem, Quot;
    AllOnDisk(s.g, s.end, s.chain);
    SectorOfOwned(s.g, s.chain, s.fptr / 512);
    WithinSector(s.fptr, |d|, s.size, SectorCount(s.g, s.chain));
  }

  lemma StoreKeeps(s: State, sq: nat, d: seq<byte>)
    requires MayStore(s, sq, d)
    ensures KeepsOthers(s, Stored(s, sq, d))
  {
    SectorOfOwned(s.g, s.chain, s.fptr / 512);
    OwnWrites(s, Stored(s, sq, d));
  }

  /** Apart from d, and from bytes past the end, the buffer is what the file saw in sector sq. */
  lemma StoreView(s: State, sq: nat, d: seq<byte>)
    requires MayStore(s, sq, d) && 0 < sq < |s.l|
    ensures Stored(s, sq, d).View() == s.View()[sq := Stored(s, sq, d).b]
    ensures forall i :: 0 <= i < 512 && !(s.fptr % 512 <= i < s.fptr % 512 + |d|) && 512 * (s.fptr / 512) + i < s.size
              ==> Stored(s, sq, d).b[i] == s.View()[sq][i]
  {
  }

  lemma StoreContent(s: State, sq: nat, d: seq<byte>)
    requires Readable(s) && Distinct(s.chain) && s.fptr <= s.size && |d| > 0 && s.fptr % 512 + |d| <= 512
    requires s.fptr / 512 < SectorCount(s.g, s.chain) && sq == SectorOf(s.g, s.chain, s.fptr / 512) < |s.l|
    requires Stored(s, sq, d).View() == s.View()[sq := Stored(s, sq, d).b] && Readable(Stored(s, sq, d))
    requires forall i :: 0 <= i < 512 && !(s.fptr % 512 <= i < s.fptr % 512 + |d|) && 512 * (s.fptr / 512) + i < s.size
              ==> Stored(s, sq, d).b[i] == s.View()[sq][i]
    ensures FileBytes(Stored(s, sq, d)) == Splice(FileBytes(s), s.fptr, d)
  {
    SectorOfOwned(s.g, s.chain, s.fptr / 512);
    var s' := Stored(s, sq, d);
    SectorRewritten(s.g, s.View(), s.chain, s.size, s.fptr / 512, s.fptr % 512, d, s'.b);
    ContentRewritten(s.g, s.View(), s'.View(), s.chain, s.size, s.fptr, d);
  }

  lemma StoreStep(s: State, sq: nat, d: seq<byte>)
    requires MayStore(s, sq, d)
    ensures var s' := Stored(s, sq, d);
            Became(s, s', Splice(FileBytes(s), s.fptr, d)).Sound?
  {
    StoreIntact(s, sq, d);
    StoreKeeps(s, sq, d);
    AllOnDisk(s.g, s.end, s.chain);
    SectorOfOwned(s.g, s.chain, s.fptr / 512);
    ChainDistinct(s);
    StoreView(s, sq, d);
    StoreContent(s, sq, d);
  }

  /** The state after whole sectors of data are written from s0 on, past the buffer, which is refilled
      if it held one of them. */
  ghost function Overwritten(s: State, s0: nat, data: seq<byte>): (s': State)
    requires |data| % 512 == 0 && s0 + |data| / 512 <= |s.l|
  {
    s.(l := PutRun(s.l, s0, data),
       b := if s0 <= s.sect < s0 + |data| / 512 then data[512 * (s.sect - s0)..512 * (s.sect - s0) + 512] else s.b,
       fptr := s.fptr + |data|, size := Max(s.size, s.fptr + |data|))
  }

  ghost predicate MayOverwrite(s: State, s0: nat, data: seq<byte>) {
    && Judge(s).Sound? && !s.dirty && s.fptr % 512 == 0 && |data| > 0 && |data| % 512 == 0
    && s.fptr + |data| <= DWORD_MAX && s.fptr / 512 < SectorCount(s.g, s.chain)
    && Rem(s.fptr / 512, s.g.csize) + |data| / 512 <= s.g.csize
    && s0 == SectorOf(s.g, s.chain, s.fptr / 512)
  }

  lemma OverwriteOwned(s: State, s0: nat, data: seq<byte>)
    requires MayOverwrite(s, s0, data)
    ensures forall i :: s0 <= i < s0 + |data| / 512 ==> Owns(s.g, s.chain, i)
    ensures s0 + |data| / 512 <= |s.l| && Covers(s.g, s.chain, s.fptr + |data|)
  {
    hide FileBytes, Laid, FatLaid;
    var q, n := s.fptr / 512, |data| / 512;
    AllOnDisk(s.g, s.end, s.chain);
    forall i | s0 <= i < s0 + n ensures Owns(s.g, s.chain, i) {
      SectorRun(s.g, s.chain, q, i - s0);
      SectorOfOwned(s.g, s.chain, q + (i - s0));
    }
    SectorRun(s.g, s.chain, q, n - 1);
    assert Owns(s.g, s.chain, s0 + n - 1);
  }

  lemma OverwriteBuffer(s: State, s0: nat, data: seq<byte>)
    requires |data| % 512 == 0 && s0 + |data| / 512 <= |s.l| && s.sect < |s.l| && s.b == s.l[s.sect]
    ensures Overwritten(s, s0, data).b == Overwritten(s, s0, data).l[s.sect]
  {
  }

  lemma OverwriteIntact(s: State, s0: nat, data: seq<byte>)
    requires MayOverwrite(s, s0, data) && s0 + |data| / 512 <= |s.l| && Covers(s.g, s.chain, s.fptr + |data|)
    ensures Judge(Overwritten(s, s0, data)).Sound?
  {
    hide Rooted, PutRun, SectorOf, Owns, Covers, Rem;
    Limits(s);
    CoversBoth(s.g, s.chain, s.size, s.fptr + |data|);
    WholeSectors(s.fptr, |data|);
    BufferPlaced(s);
    if s.sect != 0 { OverwriteBuffer(s, s0, data); }
    IntactBy(s, Overwritten(s, s0, data));
  }

  lemma BufferPlaced(s: State)
    requires Judge(s).Sound? && !s.dirty
    ensures s.sect != 0 ==> s.sect < |s.l| && s.b == s.l[s.sect]
  {
  }

  lemma CoversBoth(g: Geometry, chain: seq<nat>, a: nat, b: nat)
    requires Covers(g, chain, a) && Covers(g, chain, b)
    ensures Covers(g, chain, Max(a, b))
  {
  }

  lemma WholeSectors(p: nat, n: nat)
    requires p % 512 == 0 && n % 512 == 0
    ensures (p + n) % 512 == 0
  {
  }

  /** A state on a sector boundary with the same volume and file, and an unchanged buffer, is sound. */
  lemma IntactBy(s: State, s': State)
    requires Judge(s).Sound? && s' == s.(l := s'.l, b := s'.b, fptr := s'.fptr, size := s'.size) && !s.dirty
    requires |s'.l| == s.end && Covers(s.g, s.chain, s'.size) && s'.fptr <= s'.size <= DWORD_MAX && s'.fptr % 512 == 0
    requires s.sect != 0 ==> s.sect < |s'.l| && s'.b == s'.l[s.sect]
    ensures Judge(s').Sound?
  {
    hide Rooted, Covers, SectorOf, Owns;
  }

  lemma OverwriteKeeps(s: State, s0: nat, data: seq<byte>)
    requires Laid(s.g, s.end) && |s.l| == s.end && |s.f| == s.g.nFatent && AreClusters(s.g, s.chain)
    requires |data| % 512 == 0 && s0 + |data| / 512 <= |s.l| && forall i :: s0 <= i < s0 + |data| / 512 ==>
               Owns(s.g, s.chain, i)
    ensures KeepsOthers(s, Overwritten(s, s0, data))
  {
    OwnWrites(s, Overwritten(s, s0, data));
  }

  lemma ReadableIs(s: State)
    requires Readable(s)
    ensures Covers(s.g, s.chain, s.size) && OnDisk(s.g, s.chain, |s.l|)
  {
  }

  lemma CoversMore(g: Geometry, chain: seq<nat>, a: nat, b: nat)
    ensures Covers(g, chain, Max(a, b)) ==> Covers(g, chain, b)
  {
  }

  lemma OverwriteContent(s: State, s0: nat, data: seq<byte>)
    requires Readable(s) && Distinct(s.chain) && !s.dirty && s.fptr % 512 == 0 && s.fptr <= s.size
    requires |data| > 0 && |data| % 512 == 0 && s.fptr / 512 < SectorCount(s.g, s.chain)
    requires Rem(s.fptr / 512, s.g.csize) + |data| / 512 <= s.g.csize && s0 == SectorOf(s.g, s.chain, s.fptr / 512)
    requires s0 + |data| / 512 <= |s.l| && Readable(Overwritten(s, s0, data))
    ensures FileBytes(Overwritten(s, s0, data)) == Splice(FileBytes(s), s.fptr, data)
  {
    hide Rewrites, SectorOf, SectorCount, Splice, Content, OnDisk, Covers, PutRun, Rem, Distinct;
    ReadableIs(s);
    ReadableIs(Overwritten(s, s0, data));
    assert 512 * (s.fptr / 512) == s.fptr;
    RunRewritten(s.g, s.l, s.chain, s.size, s.fptr / 512, data);
    CoversMore(s.g, s.chain, s.size, s.fptr + |data|);
    ContentRewritten(s.g, s.l, PutRun(s.l, s0, data), s.chain, s.size, s.fptr, data);
  }

  lemma OverwriteStep(s: State, s0: nat, data: seq<byte>)
    requires MayOverwrite(s, s0, data)
    ensures s0 + |data| / 512 <= |s.l|
    ensures var s' := Overwritten(s, s0, data);
            Became(s, s', Splice(FileBytes(s), s.fptr, data)).Sound?
  {
    OverwriteOwned(s, s0, data);
    OverwriteIntact(s, s0, data);
    OverwriteKeeps(s, s0, data);
    AllOnDisk(s.g, s.end, s.chain);
    ChainDistinct(s);
    OverwriteContent(s, s0, data);
  }

  // ---- seeking

  /** A position within or at the end of cluster k of the file. */
  ghost predicate InStretch(g: Geometry, k: nat, p: nat) {
    512 * ClusterSectors(g.csize, k) < p <= 512 * ClusterSectors(g.csize, k) + 512 * g.csize
  }

  lemma StretchEnd(g: Geometry, chain: seq<nat>, k: nat, p: nat)
    requires AreClusters(g, chain) && k < |chain| && InStretch(g, k, p)
    ensures Holding(g, chain, p - 1, chain[k]) && Covers(g, chain, p)
    ensures p % 512 != 0 ==>
              p / 512 < SectorCount(g, chain)
              && SectorOf(g, chain, p / 512) == Clst2Sect(g, chain[k]) + (p - 512 * ClusterSectors(g.csize, k)) / 512
  {
    var d := p - 512 * ClusterSectors(g.csize, k);
    assert (p - 1) / 512 == ClusterSectors(g.csize, k) + (d - 1) / 512;
    QuotUnique((p - 1) / 512, g.csize, k, (d - 1) / 512);
    QuotAtLeast((p - 1) / 512, g.csize, |chain|);
    assert SectorsFor(p) == (p - 1) / 512 + 1;
    if p % 512 != 0 {
      assert p / 512 == ClusterSectors(g.csize, k) + d / 512 == (p - 1) / 512;
    }
  }

  lemma ClusterHasSector(s: State, k: nat)
    requires Judge(s).Sound? && k < |s.chain|
    ensures Clst2Sect(s.g, s.chain[k]) != 0
  {
  }

  /** A sector of the file is in the data area and not in the window. */
  lemma OwnSector(s: State, q: nat)
    requires Judge(s).Sound? && q < SectorCount(s.g, s.chain)
    ensures var i := SectorOf(s.g, s.chain, q);
            i < |s.l| && !s.g.InFat(i) && !s.g.InMirror(i) && i != s.winsect
  {
    AllOnDisk(s.g, s.end, s.chain);
    SectorOfOwned(s.g, s.chain, q);
  }

  /** A position before the end of the file and behind cluster k is in a later cluster. */
  lemma MoreClusters(s: State, k: nat, p: nat)
    requires Judge(s).Sound? && k < |s.chain| && p <= s.size && p > 512 * ClusterSectors(s.g.csize, k + 1)
    ensures k + 1 < |s.chain|
  {
  }

  /** The file is declared longer, within its clusters; the bytes gained are whatever the disk holds. */
  lemma GrowStep(s: State, n: nat)
    requires Judge(s).Sound? && s.size <= n <= DWORD_MAX && Covers(s.g, s.chain, n)
    ensures var s' := s.(size := n); Became(s, s', FileBytes(s')).Sound? && FileBytes(s')[..s.size] == FileBytes(s)
  {
    OwnWrites(s, s.(size := n));
    AllOnDisk(s.g, s.end, s.chain);
    var a, b := FileBytes(s), FileBytes(s.(size := n));
    forall p: nat | p < s.size ensures a[p] == b[p] { }
  }

  /** The buffer takes the sector of position p, and the file pointer moves there. */
  lemma SeekStep(s: State, p: nat, b': Sector)
    requires Judge(s).Sound? && !s.dirty && p <= s.size && p / 512 < SectorCount(s.g, s.chain)
    requires SectorOf(s.g, s.chain, p / 512) < |s.l| && b' == s.l[SectorOf(s.g, s.chain, p / 512)]
    ensures var s' := s.(sect := SectorOf(s.g, s.chain, p / 512), b := b', fptr := p);
            Became(s, s', FileBytes(s)).Sound?
  {
    AllOnDisk(s.g, s.end, s.chain);
    SectorOfOwned(s.g, s.chain, p / 512);
    OwnWrites(s, s.(sect := SectorOf(s.g, s.chain, p / 512), b := b', fptr := p));
  }

  // ---- truncating

  /** The state after the file is cut at the file pointer, keeping its first k clusters, and the buffer
      is written back. */
  ghost function Cut(s: State, k: nat, f': seq<nat>, l': seq<Sector>, free': nat, w: nat): (s': State)
    requires k <= |s.chain|
  {
    s.(f := f', free := free', winsect := w, l := Viewed(l', s.sect, s.dirty, s.b), dirty := false,
       chain := s.chain[..k], sclust := if k == 0 then 0 else s.sclust, size := s.fptr)
  }

  /** What the FAT may have become: all clusters freed, those from k on, or, when there are no more, none. */
  ghost predicate CutFat(s: State, k: nat, e: nat, f': seq<nat>) {
    && e >= |s.f| && k <= |s.chain| && s.chain != []
    && (forall i :: 0 <= i < |s.chain| ==> s.chain[i] < |s.f|)
    && (if k == 0 then f' == Zeroed(s.f, s.chain)
        else if k < |s.chain| then f' == Zeroed(s.f[s.chain[k - 1] := e], s.chain[k..])
        else f' == s.f)
  }

  /** What remove_chain leaves of the FAT when the file is cut at the file pointer, keeping k clusters. */
  lemma CutUnlinks(s: State, k: nat, e: nat)
    requires Judge(s).Sound? && k < |s.chain| && e >= |s.f|
    ensures 2 <= s.chain[k] < |s.f| && (k > 0 ==> 2 <= s.chain[k - 1] < |s.f|)
    ensures var h := if k == 0 then s.f else s.f[s.chain[k - 1] := e];
            var u := Unlink(h, s.chain[k]);
            u.1 == |s.chain| - k && u.2 == OK && CutFat(s, k, e, u.0)
            && FreeCount(u.0) == FreeCount(s.f) + |s.chain| - k
  {
    if k == 0 { Freed(s.f, s.chain); } else { Truncated(s.f, s.chain, k, e); }
  }

  /** The clusters needed up to the file pointer are among those of the file. */
  lemma CutNothing(s: State, e: nat)
    requires Judge(s).Sound? && s.chain != [] && e >= |s.f|
    ensures CutFat(s, |s.chain|, e, s.f)
  {
  }

  /** The clusters kept end with the one of the byte before the file pointer. */
  lemma CutAt(s: State, clst: nat)
    requires Judge(s).Sound? && s.fptr < s.size && (s.fptr > 0 ==> Holding(s.g, s.chain, s.fptr - 1, clst))
    ensures s.g.csize > 0 && s.chain != []
    ensures var k := ClustersFor(s.g, s.fptr);
            if s.fptr == 0 then k == 0 else 0 < k <= |s.chain| && clst == s.chain[k - 1]
  {
    CutWithin(s);
    InChain(s);
    CutHolding(s, ClustersFor(s.g, s.fptr), clst);
  }

  lemma CutWithin(s: State)
    requires Judge(s).Sound?
    ensures s.g.csize > 0 && ClustersFor(s.g, s.fptr) <= |s.chain|
  {
    ClustersForEnough(s.g, s.fptr, |s.chain|);
  }

  ghost predicate MayCut(s: State, k: nat, e: nat, f': seq<nat>, l': seq<Sector>, free': nat, w: nat) {
    && Judge(s).Sound? && CutFat(s, k, e, f')
    && s.g.csize > 0 && k == ClustersFor(s.g, s.fptr)
    && SameButFat(s.g, s.l, l') && CountOk(f', free') && (w == s.winsect || w == NO_SECTOR || s.g.InFat(w))
  }

  lemma CutPlace(s: State, k: nat, e: nat, f': seq<nat>, l': seq<Sector>, free': nat, w: nat)
    requires MayCut(s, k, e, f', l', free', w)
    ensures k <= |s.chain| && |l'| == |s.l|
    ensures s.dirty ==>
              s.g.fatbase <= s.sect < |l'| && !s.g.InFat(s.sect) && !s.g.InMirror(s.sect) && s.sect != w
  {
    if s.dirty { BufferPlace(s); }
  }

  /** The cluster of the last byte is the last one kept. */
  lemma CutHolding(s: State, k: nat, clst: nat)
    requires s.g.csize > 0 && k == ClustersFor(s.g, s.fptr) <= |s.chain|
    ensures s.fptr > 0 && Holding(s.g, s.chain, s.fptr - 1, clst) ==> Holding(s.g, s.chain[..k], s.fptr - 1, clst)
  {
  }

  /** The FAT stays a forest with an exact count, and the other chains are unchanged. */
  lemma CutForest(s: State, k: nat, e: nat, f': seq<nat>)
    requires Forest(s.f) && ChainOf(s.f, s.chain, s.sclust) && CutFat(s, k, e, f')
    ensures |f'| == |s.f| && Forest(f') && FreeCount(f') == FreeCount(s.f) + |s.chain| - k
    ensures ChainOf(f', s.chain[..k], if k == 0 then 0 else s.sclust)
    ensures forall t :: IsChain(s.f, t) && Apart(s.chain, t) ==> IsChain(f', t) && Apart(s.chain[..k], t)
  {
    if k == 0 {
      Freed(s.f, s.chain);
    } else if k < |s.chain| {
      Truncated(s.f, s.chain, k, e);
    } else {
      assert s.chain[..k] == s.chain;
    }
  }

  /** The shortened chain is a chain of a sound volume. */
  lemma CutRoot(s: State, k: nat, f': seq<nat>, free': nat, w: nat)
    requires Judge(s).Sound? && k <= |s.chain| && |f'| == |s.f| && Forest(f') && CountOk(f', free')
    requires ChainOf(f', s.chain[..k], if k == 0 then 0 else s.sclust)
    requires w == s.winsect || w == NO_SECTOR || s.g.InFat(w)
    ensures JudgeRoot(s.g, s.end, f', free', w, s.chain[..k], if k == 0 then 0 else s.sclust).Sound?
  {
    AllOnDisk(s.g, s.end, s.chain);
    if Owns(s.g, s.chain[..k], w) { OwnsPrefix(s.g, s.chain[..k], s.chain, w); }
  }

  /** The kept clusters are enough for the kept bytes. */
  lemma CutCovers(g: Geometry, chain: seq<nat>, p: nat, k: nat)
    requires AreClusters(g, chain) && k <= |chain| && k == ClustersFor(g, p)
    ensures Covers(g, chain[..k], p)
  {
    ClustersForEnough(g, p, k);
  }

  lemma CutIntact(s: State, k: nat, f': seq<nat>, l': seq<Sector>, free': nat, w: nat)
    requires Judge(s).Sound? && k <= |s.chain| && SameButFat(s.g, s.l, l') && Covers(s.g, s.chain[..k], s.fptr)
    requires JudgeRoot(s.g, s.end, f', free', w, s.chain[..k], if k == 0 then 0 else s.sclust).Sound?
    ensures Judge(Cut(s, k, f', l', free', w)).Sound?
  {
    var s' := Cut(s, k, f', l', free', w);
    AllOnDisk(s.g, s.end, s.chain);
    if s.fptr % 512 != 0 {
      assert (s.fptr - 1) / 512 == s.fptr / 512;
      SectorOfPrefix(s.g, s'.chain, s.chain, s.fptr / 512);
    }
  }

  lemma CutKeeps(s: State, k: nat, f': seq<nat>, l': seq<Sector>, free': nat, w: nat)
    requires Laid(s.g, s.end) && |s.l| == s.end && |s.f| == |f'| == s.g.nFatent && k <= |s.chain|
    requires AreClusters(s.g, s.chain)
    requires SameButFat(s.g, s.l, l') && (s.dirty ==> Owns(s.g, s.chain, s.sect))
    requires forall t :: IsChain(s.f, t) && Apart(s.chain, t) ==> IsChain(f', t) && Apart(s.chain[..k], t)
    ensures KeepsOthers(s, Cut(s, k, f', l', free', w))
  {
    var s' := Cut(s, k, f', l', free', w);
    AllOnDisk(s.g, s.end, s.chain);
    forall t | IsChain(s.f, t) && Apart(s.chain, t) ensures SameOn(s.g, t, s.l, s'.l) {
      AllOnDisk(s.g, s.end, t);
      forall i | 0 <= i < |s.l| && Owns(s.g, t, i) ensures s'.l[i] == s.l[i] { OwnersApart(s.g, s.chain, t, i); }
    }
  }

  lemma CutContent(s: State, k: nat, f': seq<nat>, l': seq<Sector>, free': nat, w: nat)
    requires Judge(s).Sound? && k <= |s.chain| && SameButFat(s.g, s.l, l') && Judge(Cut(s, k, f', l', free', w)).Sound?
    ensures FileBytes(Cut(s, k, f', l', free', w)) == FileBytes(s)[..s.fptr]
  {
    var s' := Cut(s, k, f', l', free', w);
    AllOnDisk(s.g, s.end, s.chain);
    AllOnDisk(s.g, s.end, s'.chain);
    ContentPrefix(s.g, s.View(), s'.chain, s.chain, s.fptr);
    SameContent(s.g, s'.View(), s.View(), s'.chain, s.fptr);
    var a, b := FileBytes(s)[..s.fptr], Content(s.g, s.View(), s.chain, s.fptr);
    forall p: nat | p < s.fptr ensures a[p] == b[p] { }
  }

  lemma CutStep(s: State, k: nat, e: nat, f': seq<nat>, l': seq<Sector>, free': nat, w: nat)
    requires MayCut(s, k, e, f', l', free', w)
    ensures var s' := Cut(s, k, f', l', free', w);
            Became(s, s', FileBytes(s)[..s.fptr]).Sound?
  {
    AllOnDisk(s.g, s.end, s.chain);
    CutForest(s, k, e, f');
    CutRoot(s, k, f', free', w);
    CutCovers(s.g, s.chain, s.fptr, k);
    CutIntact(s, k, f', l', free', w);
    CutKeeps(s, k, f', l', free', w);
    CutContent(s, k, f', l', free', w);
  }

  // ---------------------------------------------------------------- synchronising

  /** Sector ds holds the file's directory entry: it is in the static root or in the chain of another
      object, the directory. */
  ghost predicate EntryPlace(s: State, ds: nat) {
    ds < |s.l|
    && ((s.g.fsType != FAT32 && s.g.dirbase <= ds < s.g.database)
        || exists t :: IsChain(s.f, t) && Apart(s.chain, t) && Owns(s.g, t, ds))
  }

  /** ... and the buffer does not hold it. */
  ghost predicate Filed(s: State, ds: nat) { EntryPlace(s, ds) && s.sect != ds }

  lemma EntryApart(s: State, ds: nat)
    requires Judge(s).Sound? && Filed(s, ds)
    ensures ds < |s.l| && !s.g.InFat(ds) && !s.g.InMirror(ds) && !Owns(s.g, s.chain, ds)
    ensures s.sect != ds && ds > s.g.volbase + 1 && ds >= s.g.fatbase
  {
    AllOnDisk(s.g, s.end, s.chain);
    if !(s.g.fsType != FAT32 && s.g.dirbase <= ds < s.g.database) {
      var t :| IsChain(s.f, t) && Apart(s.chain, t) && Owns(s.g, t, ds);
      AllOnDisk(s.g, s.end, t);
      OwnersApart(s.g, s.chain, t, ds);
    }
  }

  lemma FiledStays(s: State, t: State, c: seq<byte>, ds: nat)
    requires Became(s, t, c).Sound? && Filed(s, ds)
    ensures Filed(t, ds)
  {
    if s.g.fsType != FAT32 && s.g.dirbase <= ds < s.g.database {
    } else {
      var u :| IsChain(s.f, u) && Apart(s.chain, u) && Owns(s.g, u, ds);
      assert IsChain(t.f, u) && Apart(t.chain, u) && Owns(t.g, u, ds);
    }
  }

  lemma FiledAgain(s: State, l': seq<Sector>, w: nat, ds: nat)
    requires Filed(s, ds) && |l'| == |s.l|
    ensures Filed(s.(l := l', winsect := w), ds)
  {
  }

  /** Sectors outside the file's chain change; the window ends up outside it. */
  lemma ElsewhereStep(s: State, l': seq<Sector>, w: nat)
    requires Judge(s).Sound? && !s.dirty && |l'| == |s.l| && !Owns(s.g, s.chain, w)
    requires forall i :: 0 <= i < |s.l| && (Owns(s.g, s.chain, i) || i == s.sect) ==> l'[i] == s.l[i]
    ensures var s' := s.(l := l', winsect := w);
            Judge(s').Sound? && FileBytes(s') == FileBytes(s) && Clusters(s') == Clusters(s)
  {
    AllOnDisk(s.g, s.end, s.chain);
    var s' := s.(l := l', winsect := w);
    SameContent(s.g, s'.View(), s.View(), s.chain, s.size);
  }

  /** The FSInfo sector is written. */
  lemma InfoStep(s: State, l': seq<Sector>, w: nat)
    requires Judge(s).Sound? && !s.dirty && |l'| == |s.l| && !Owns(s.g, s.chain, s.winsect)
    requires w == s.winsect || (w == s.g.volbase + 1 && w < s.g.fatbase)
    requires forall i :: 0 <= i < |s.l| && !(i == s.g.volbase + 1 && i < s.g.fatbase) ==> l'[i] == s.l[i]
    ensures var s' := s.(l := l', winsect := w); Judge(s').Sound? && FileBytes(s') == FileBytes(s)
  {
    AllOnDisk(s.g, s.end, s.chain);
    ElsewhereStep(s, l', w);
  }

  /** What f_sync does to the logical disk: the buffer is written back, sector ds becomes w, and only the
      FSInfo sector may change besides. */
  ghost predicate Synced(s: State, t: State, ds: nat, w: Sector) {
    && |t.l| == |s.l| && ds < |t.l| && t.l[ds] == w && !t.dirty
    && t == s.(l := t.l, winsect := t.winsect, dirty := false)
    && forall i :: 0 <= i < |s.l| && i != ds && i != s.g.volbase + 1 ==> t.l[i] == s.View()[i]
  }

  lemma FirstCluster(s: State)
    requires Judge(s).Sound?
    ensures s.sclust != 0 ==> 2 <= s.sclust < |s.f|
  {
  }

  lemma VolumePlace(s: State)
    requires Judge(s).Sound?
    ensures s.g.volbase < s.g.fatbase
  {
  }

  lemma FirstClusterFits(s: State)
    requires Judge(s).Sound?
    ensures ClusterFits(s.g.fsType, s.sclust)
  {
  }

  /** The medium d alone, by the directory entry at offset off of sector ds and by its FAT, holds a file
      with bytes c. */
  ghost predicate Recorded(g: Geometry, d: seq<Sector>, ds: nat, off: nat, c: seq<byte>) {
    HasFat(g, |d|) && ds < |d| && off + 32 <= 512
    && exists chain :: RecordedBy(g, d, ds, off, chain) && Content(g, d, chain, LoadSize(d[ds], off)) == c
  }

  ghost predicate RecordedBy(g: Geometry, d: seq<Sector>, ds: nat, off: nat, chain: seq<nat>)
    requires HasFat(g, |d|) && ds < |d| && off + 32 <= 512
  {
    var start := LoadCluster(g.fsType, d[ds], off);
    && (if chain == [] then start == 0 else IsChain(FatMap(g, d), chain) && chain[0] == start)
    && Covers(g, chain, LoadSize(d[ds], off)) && OnDisk(g, chain, |d|)
  }

  /** A medium tells of one file only. */
  lemma RecordedOnce(g: Geometry, d: seq<Sector>, ds: nat, off: nat, a: seq<byte>, b: seq<byte>)
    requires Recorded(g, d, ds, off, a) && Recorded(g, d, ds, off, b)
    ensures a == b
  {
    var s :| RecordedBy(g, d, ds, off, s) && Content(g, d, s, LoadSize(d[ds], off)) == a;
    var t :| RecordedBy(g, d, ds, off, t) && Content(g, d, t, LoadSize(d[ds], off)) == b;
    if s != [] && t != [] { ChainSameTail(FatMap(g, d), s, t, 0, 0); }
    assert s == t;
  }

  /** With nothing pending and the entry up to date, the medium records the file. */
  lemma NowRecorded(s: State, d: seq<Sector>, ds: nat, off: nat)
    requires Judge(s).Sound? && !s.dirty && Decodes(s.g.fsType, Image(s.g, s.l), s.f, |s.f|)
    requires |d| == |s.l| && forall i :: 0 <= i < |d| && !s.g.InMirror(i) ==> d[i] == s.l[i]
    requires ds < |d| && !s.g.InMirror(ds) && off + 32 <= 512
    requires LoadCluster(s.g.fsType, s.l[ds], off) == s.sclust && LoadSize(s.l[ds], off) == s.size
    ensures Recorded(s.g, d, ds, off, FileBytes(s))
  {
    hide Covers, Content;
    AllOnDisk(s.g, s.end, s.chain);
    assert Image(s.g, d) == Image(s.g, s.l);
    SameFat(s.g.fsType, Image(s.g, d), s.f, FatMap(s.g, d));
    SameContent(s.g, d, s.l, s.chain, s.size);
    assert RecordedBy(s.g, d, ds, off, s.chain);
  }

  /** The medium still tells the bytes of a file when its FAT has changed elsewhere only. */
  lemma StillRecorded(s: State, f': seq<nat>, d: seq<Sector>, ds: nat, off: nat)
    requires Judge(s).Sound? && !s.dirty && |f'| == |s.f| && HasFat(s.g, |d|)
    requires Decodes(s.g.fsType, Image(s.g, d), f', |f'|) && forall c :: c in s.chain && c < |s.f| ==> f'[c] == s.f[c]
    requires |d| == |s.l| && forall i :: 0 <= i < |d| && (i == ds || Owns(s.g, s.chain, i)) ==> d[i] == s.l[i]
    requires ds < |d| && off + 32 <= 512
    requires LoadCluster(s.g.fsType, s.l[ds], off) == s.sclust && LoadSize(s.l[ds], off) == s.size
    ensures Recorded(s.g, d, ds, off, FileBytes(s))
  {
    hide Covers, Content;
    AllOnDisk(s.g, s.end, s.chain);
    SameFat(s.g.fsType, Image(s.g, d), f', FatMap(s.g, d));
    SameContent(s.g, d, s.l, s.chain, s.size);
    assert s.chain != [] ==> IsChain(f', s.chain) by {
      assert forall i :: 0 <= i < |s.chain| ==> s.chain[i] in s.chain;
    }
    assert RecordedBy(s.g, d, ds, off, s.chain);
  }

  /** A path in a FAT to a free cluster. */
  ghost predicate LeadsNowhere(f: seq<nat>, path: seq<nat>) {
    && path != []
    && (forall j :: 0 <= j < |path| ==> path[j] < |f|)
    && (forall j :: 0 <= j < |path| - 1 ==> f[path[j]] == path[j + 1])
    && f[path[|path| - 1]] == 0
  }

  /** An entry whose first cluster leads to a free one tells of no file. */
  lemma NoneRecorded(g: Geometry, d: seq<Sector>, ds: nat, off: nat, f: seq<nat>, path: seq<nat>)
    requires HasFat(g, |d|) && |f| == g.nFatent && Decodes(g.fsType, Image(g, d), f, |f|) && ds < |d| && off + 32 <= 512
    requires LeadsNowhere(f, path) && path[0] == LoadCluster(g.fsType, d[ds], off) >= 2
    ensures forall c :: !Recorded(g, d, ds, off, c)
  {
    hide Content, Covers, Image, FatMap, Decodes, LeadsNowhere;
    PathEnds(f, path);
    SameFat(g.fsType, Image(g, d), f, FatMap(g, d));
    forall chain ensures !RecordedBy(g, d, ds, off, chain) {
      if RecordedBy(g, d, ds, off, chain) {
        PathFollows(f, chain, path, |path| - 1);
        ChainUsed(f, chain);
      }
    }
  }

  /** A chain follows every path from its start. */
  lemma {:induction false} PathFollows(f: seq<nat>, chain: seq<nat>, path: seq<nat>, j: nat)
    requires IsChain(f, chain) && LeadsNowhere(f, path) && j < |path| && path[0] == chain[0]
    ensures j < |chain| && chain[j] == path[j]
    decreases j
  {
    if j > 0 {
      PathFollows(f, chain, path, j - 1);
      ChainNext(f, chain, j - 1);
      assert f[path[j - 1]] == path[j] < |f|;
    }
  }

  lemma PathEnds(f: seq<nat>, path: seq<nat>)
    requires LeadsNowhere(f, path)
    ensures path != [] && path[|path| - 1] < |f| && f[path[|path| - 1]] == 0
  {
  }
}
