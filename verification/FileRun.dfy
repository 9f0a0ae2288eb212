/** Whole runs of operations on one open file: they are operations on a byte sequence with a position,
    and touch nothing else on the volume. */
module FileRun {
  import opened Bytes
  import opened Geometry
  import opened FsInfoSector
  import opened FatSpec
  import opened Window
  import opened ChainSpec
  import opened FileSpec
  import opened FileState
  import opened DirEntry
  import opened File

  datatype Op = Read(n: nat) | Write(data: seq<byte>) | Seek(ofs: nat) | Truncate | Sync

  /** An operation and what it gave back: the bytes read, the number of bytes written. */
  datatype Event = Event(op: Op, got: seq<byte>, put: nat)

  /** A file as its user sees it. */
  datatype Abstract = Abstract(bytes: seq<byte>, pos: nat)

  function Min(a: nat, b: nat): nat { if a < b then a else b }

  /** How event e takes file a to file b, for a file opened for reading (r) and writing (w) on a volume
      that can hold cap bytes of it. Only the bytes gained by seeking are left open. */
  ghost predicate Next(r: bool, w: bool, cap: nat, a: Abstract, e: Event, b: Abstract) {
    a.pos <= |a.bytes| <= cap
    && match e.op
       case Read(n) =>
         var k := if r then Min(n, |a.bytes| - a.pos) else 0;
         e.got == a.bytes[a.pos..a.pos + k] && b == Abstract(a.bytes, a.pos + k)
       case Write(d) =>
         var k := if w then Min(Writable(a.pos, |d|), cap - a.pos) else 0;
         e.put == k && b == Abstract(Splice(a.bytes, a.pos, d[..k]), a.pos + k)
       case Seek(o) =>
         b.pos == Min(o, if w then cap else |a.bytes|)
         && |b.bytes| == Max(|a.bytes|, b.pos) && b.bytes[..|a.bytes|] == a.bytes
       case Truncate => b == if w then Abstract(a.bytes[..a.pos], a.pos) else a
       case Sync => b == a
  }

  /** A run of events, by way of the files in between. */
  ghost predicate Runs(r: bool, w: bool, cap: nat, states: seq<Abstract>, events: seq<Event>) {
    |states| == |events| + 1
    && forall i :: 0 <= i < |events| ==> Next(r, w, cap, states[i], events[i], states[i + 1])
  }

  lemma RunsOn(r: bool, w: bool, cap: nat, states: seq<Abstract>, events: seq<Event>, e: Event, b: Abstract)
    requires Runs(r, w, cap, states, events) && Next(r, w, cap, states[|states| - 1], e, b)
    ensures Runs(r, w, cap, states + [b], events + [e])
  {
  }

  // ---------------------------------------------------------------- how much fits

  /** Bytes the file can grow to: those of its clusters and of all free ones. */
  ghost function Capacity(s: State): nat { 512 * ClusterSectors(s.g.csize, Clusters(s)) }

  lemma WithinCapacity(s: State)
    requires Judge(s).Sound?
    ensures s.size <= Capacity(s)
  {
    if |s.chain| < Clusters(s) { ClusterSectorsMonotone(s.g.csize, |s.chain|, Clusters(s)); }
  }

  lemma FullAtCapacity(s: State, p: nat)
    requires Judge(s).Sound? && NoneFree(s.f) && p == 512 * SectorCount(s.g, s.chain)
    ensures p == Capacity(s)
  {
    FreeBelowZero(s.f, |s.f|);
  }

  // ---------------------------------------------------------------- what stays

  /** Everything on the volume but the file, its directory entry and the FSInfo sector. */
  ghost predicate KeepsRest(s: State, t: State, ds: nat, off: nat) {
    && t.g == s.g && |t.l| == |s.l| && |t.f| == |s.f| && ds < |s.l|
    && (forall i :: 0 <= i < 512 && !(off <= i < off + 32) ==> t.l[ds][i] == s.l[ds][i])
    && (forall i ::
          0 <= i < |s.l| && i != ds && i != s.g.volbase + 1 && !s.g.InFat(i) && !s.g.InMirror(i) && !s.g.InData(i) ==>
            t.l[i] == s.l[i])
    && (forall u :: IsChain(s.f, u) && Apart(s.chain, u) ==>
          IsChain(t.f, u) && Apart(t.chain, u)
          && forall i :: 0 <= i < |s.l| && i != ds && Owns(s.g, u, i) ==> t.l[i] == s.l[i])
  }

  lemma KeepsRestOn(s: State, t: State, u: State, ds: nat, off: nat)
    requires KeepsRest(s, t, ds, off) && KeepsRest(t, u, ds, off)
    ensures KeepsRest(s, u, ds, off)
  {
  }

  lemma BecameKeepsRest(s: State, t: State, c: seq<byte>, ds: nat, off: nat)
    requires Judge(s).Sound? && Became(s, t, c).Sound? && Filed(s, ds)
    ensures KeepsRest(s, t, ds, off) && Filed(t, ds) && Capacity(t) == Capacity(s)
  {
    EntryApart(s, ds);
    FiledStays(s, t, c, ds);
    if s.g.fsType != FAT32 && s.g.dirbase <= ds < s.g.database {
      assert !s.g.InData(ds);
    } else {
      var u :| IsChain(s.f, u) && Apart(s.chain, u) && Owns(s.g, u, ds);
      assert SameOn(s.g, u, s.l, t.l);
    }
  }

  lemma SyncedKeepsRest(s: State, t: State, ds: nat, off: nat, w: Sector, tm: nat)
    requires Judge(s).Sound? && Filed(s, ds) && off + 32 <= 512 && Synced(s, t, ds, w)
    requires ds < |s.l| && w == EntryStored(s.g.fsType, s.l[ds], off, s.sclust, s.size, tm)
    ensures KeepsRest(s, t, ds, off) && Filed(t, ds) && Capacity(t) == Capacity(s)
  {
    hide EntryStored, Forest;
    EntryApart(s, ds);
    FirstClusterFits(s);
    EntryReadsBack(s.g.fsType, s.l[ds], off, s.sclust, s.size, tm);
    FiledAgain(s, t.l, t.winsect, ds);
    AllOnDisk(s.g, s.end, s.chain);
    forall u, i | IsChain(s.f, u) && Apart(s.chain, u) && 0 <= i < |s.l| && i != ds
    && Owns(s.g, u, i) ensures t.l[i] == s.l[i] {
      AllOnDisk(s.g, s.end, u);
      OwnersApart(s.g, s.chain, u, i);
    }
  }

  // ---------------------------------------------------------------- running

  /** The file as its user sees it. */
  ghost function User(f: Fil): Abstract
    requires Judge(f.St()).Sound?
    reads f, f.fs
  {
    Abstract(f.Contents(), f.fptr)
  }

  /** The file is open, its entry can be written, and the medium does not fail. */
  ghost predicate Ready(f: Fil)
    reads f, f.buf, f.fs, f.fs.win, f.fs.disk
  {
    f.Valid() && f.err == OK && f.fs.disk.reliable && Filed(f.St(), f.dirSect) && f.dirOff + 32 <= 512
  }

  /** FSInfo, if it is ever written on this volume, does not go over the FAT. */
  predicate SyncSafe(f: Fil) { f.fs.geo.fsType == FAT32 && !f.fs.infoOff ==> InfoApart(f.fs.geo) }

  /** Nothing of a file that is not modified is pending, and its entry is up to date. */
  ghost predicate Settled(f: Fil)
    reads f, f.fs
  {
    !f.modified ==> !f.dirty && !f.fs.wflag && EntryTells(f.St(), f.dirSect, f.dirOff)
  }

  /** On a volume whose FSInfo is kept, it is not out of date for a file that is not modified. */
  ghost predicate InfoSettled(f: Fil)
    reads f, f.fs
  {
    f.fs.tracked && !f.modified ==> !f.fs.infoDue
  }

  /** Both stay so. */
  twostate predicate Settling(f: Fil)
    reads f, f.fs
  {
    (old(Settled(f)) ==> Settled(f)) && (old(InfoSettled(f)) ==> InfoSettled(f))
  }

  ghost predicate EntryTells(s: State, ds: nat, off: nat) {
    ds < |s.l| && off + 32 <= 512 && LoadCluster(s.g.fsType, s.l[ds], off) == s.sclust
    && LoadSize(s.l[ds], off) == s.size
  }

  /** The medium alone then holds it. */
  lemma SettledRecords(f: Fil)
    requires Ready(f) && Settled(f) && !f.modified
    ensures Recorded(f.fs.geo, f.fs.disk.sectors, f.dirSect, f.dirOff, f.Contents())
  {
    hide Judge, FileBytes, Decodes, Image, Recorded, Filed, Laid;
    EntryApart(f.St(), f.dirSect);
    Limits(f.St());
    NowRecorded(f.St(), f.fs.disk.sectors, f.dirSect, f.dirOff);
  }

  /** What FSInfo on medium d says of the free clusters: nothing, or how many its FAT has. A count that was
      known stays so. */
  ghost predicate InfoExact(g: Geometry, d: seq<Sector>, counted: bool) {
    HasFat(g, |d|) && g.volbase + 1 < |d|
    && var n := InfoNumbers(d[g.volbase + 1]).0;
       CountOk(FatMap(g, d), n) && (counted ==> n == FreeCount(FatMap(g, d)))
  }

  lemma SettledInfo(f: Fil)
    requires Ready(f) && Settled(f) && InfoSettled(f) && !f.modified && f.fs.tracked
    ensures f.fs.InfoTold() && InfoExact(f.fs.geo, f.fs.disk.sectors, f.fs.counted)
  {
    hide Judge, FileBytes, Decodes, Image, Filed, Laid, InfoNumbers, FreeCount;
    Limits(f.St());
    NothingPending(f.fs);
    SameImage(f.fs.geo, f.fs.logical, f.fs.disk.sectors);
    SameFat(f.fs.geo.fsType, Image(f.fs.geo, f.fs.disk.sectors), f.fs.fat, FatMap(f.fs.geo, f.fs.disk.sectors));
  }

  lemma TellsStill(s: State, t: State, c: seq<byte>, ds: nat, off: nat)
    requires Judge(s).Sound? && Filed(s, ds) && Became(s, t, c).Sound? && EntryTells(s, ds, off)
    requires t.sclust == s.sclust && t.size == s.size
    ensures EntryTells(t, ds, off)
  {
    EntryApart(s, ds);
    if !(s.g.fsType != FAT32 && s.g.dirbase <= ds < s.g.database) {
      var u :| IsChain(s.f, u) && Apart(s.chain, u) && Owns(s.g, u, ds);
      assert SameOn(s.g, u, s.l, t.l);
    }
  }

  /** The arguments fit the types of the source. */
  predicate Fits(op: Op) {
    match op
    case Read(n) => n <= DWORD_MAX
    case Write(d) => |d| <= DWORD_MAX
    case Seek(o) => o <= DWORD_MAX
    case _ => true
  }

  /** What every operation ensures. */
  ghost predicate Done(r: bool, w: bool, s: State, a: Abstract, e: Event, t: State, b: Abstract, ds: nat, off: nat) {
    Next(r, w, Capacity(s), a, e, b) && KeepsRest(s, t, ds, off) && Capacity(t) == Capacity(s)
  }

  method DoRead(f: Fil, n: nat) returns (e: Event)
    requires Ready(f)
    modifies f, f.buf, f.fs, f.fs.win, f.fs.disk
    ensures Ready(f) && e.op == Read(n) && Settling(f)
    ensures Done(f.mayRead, f.mayWrite, old(f.St()), old(User(f)), e, f.St(), User(f), f.dirSect, f.dirOff)
  {
    hide Fatfs.Valid, Fatfs.Consistent, EntryTells, IsChain, Became;
    hide Judge, FileBytes, KeepsOthers, Laid, KeepsRest, Filed, Capacity, Coherent, Mirrored, Decodes, Holding;
    ghost var s, c := f.St(), f.Contents();
    WithinCapacity(s);
    Limits(s);
    var buff := new byte[n];
    var res, br := f.Read(buff, n);
    e := Event(Read(n), buff[..br], 0);
    if f.mayRead { BecameGives(s, f.St(), c); } else { BecameNothing(s); }
    BecameKeepsRest(s, f.St(), c, f.dirSect, f.dirOff);
    if !f.modified && EntryTells(s, f.dirSect, f.dirOff) && f.mayRead { TellsStill(s, f.St(), c, f.dirSect, f.dirOff); }
  }

  method DoWrite(f: Fil, d: seq<byte>) returns (e: Event)
    requires Ready(f) && |d| <= DWORD_MAX
    modifies f, f.buf, f.fs, f.fs.win, f.fs.disk
    ensures Ready(f) && e.op == Write(d) && Settling(f)
    ensures Done(f.mayRead, f.mayWrite, old(f.St()), old(User(f)), e, f.St(), User(f), f.dirSect, f.dirOff)
  {
    hide Judge, FileBytes, KeepsOthers, Laid, KeepsRest, Filed, Capacity, Coherent, Mirrored, Decodes, Holding;
    hide NoneFree, SectorCount, Splice;
    ghost var s, c := f.St(), f.Contents();
    WithinCapacity(s);
    Limits(s);
    var res, bw := f.Write(d);
    e := Event(Write(d), [], bw);
    ghost var t, c' := f.St(), Splice(c, s.fptr, d[..bw]);
    if f.mayWrite {
      BecameGives(s, t, c');
      WithinCapacity(t);
      Limits(t);
      if bw < Writable(s.fptr, |d|) { FullAtCapacity(t, t.fptr); }
    } else {
      BecameNothing(s);
      assert d[..0] == [];
      SpliceNone(c, s.fptr);
    }
    BecameKeepsRest(s, t, c', f.dirSect, f.dirOff);
  }

  method DoSeek(f: Fil, o: nat) returns (e: Event)
    requires Ready(f) && o <= DWORD_MAX
    modifies f, f.buf, f.fs, f.fs.win, f.fs.disk
    ensures Ready(f) && e.op == Seek(o) && Settling(f)
    ensures Done(f.mayRead, f.mayWrite, old(f.St()), old(User(f)), e, f.St(), User(f), f.dirSect, f.dirOff)
  {
    hide Judge, FileBytes, KeepsOthers, Laid, KeepsRest, Filed, Capacity, Coherent, Mirrored, Decodes, Holding;
    hide NoneFree, SectorCount;
    ghost var s, c := f.St(), f.Contents();
    WithinCapacity(s);
    Limits(s);
    var res := f.Lseek(o);
    e := Event(Seek(o), [], 0);
    ghost var t := f.St();
    BecameGives(s, t, f.Contents());
    WithinCapacity(t);
    Limits(t);
    if f.fptr < o && f.mayWrite { FullAtCapacity(t, t.fptr); }
    BecameKeepsRest(s, t, f.Contents(), f.dirSect, f.dirOff);
    if !f.modified && EntryTells(s, f.dirSect, f.dirOff) { TellsStill(s, t, f.Contents(), f.dirSect, f.dirOff); }
  }

  method DoTruncate(f: Fil) returns (e: Event)
    requires Ready(f)
    modifies f, f.buf, f.fs, f.fs.win, f.fs.disk
    ensures Ready(f) && e.op == Truncate && Settling(f)
    ensures Done(f.mayRead, f.mayWrite, old(f.St()), old(User(f)), e, f.St(), User(f), f.dirSect, f.dirOff)
  {
    hide Judge, FileBytes, KeepsOthers, Laid, KeepsRest, Filed, Capacity, Coherent, Mirrored, Decodes, Holding;
    ghost var s, c := f.St(), f.Contents();
    WithinCapacity(s);
    Limits(s);
    var res := f.Truncate();
    e := Event(Truncate, [], 0);
    if f.mayWrite {
      BecameKeepsRest(s, f.St(), c[..s.fptr], f.dirSect, f.dirOff);
      BecameGives(s, f.St(), c[..s.fptr]);
    } else {
      BecameNothing(s);
      BecameKeepsRest(s, f.St(), c, f.dirSect, f.dirOff);
    }
  }

  method DoSync(f: Fil, tm: nat) returns (e: Event)
    requires Ready(f) && SyncSafe(f)
    modifies f, f.buf, f.fs, f.fs.win, f.fs.disk
    ensures Ready(f) && e.op == Sync && !f.modified && Settling(f)
    ensures Done(f.mayRead, f.mayWrite, old(f.St()), old(User(f)), e, f.St(), User(f), f.dirSect, f.dirOff)
    ensures old(f.modified) ==> Recorded(f.fs.geo, f.fs.disk.sectors, f.dirSect, f.dirOff, f.Contents())
  {
    hide Judge, FileBytes, KeepsOthers, Laid, KeepsRest, Filed, Capacity, Coherent, Mirrored, Decodes, Holding;
    hide Recorded, EntryStored;
    ghost var s, c := f.St(), f.Contents();
    WithinCapacity(s);
    EntryApart(s, f.dirSect);
    ghost var w: Sector := EntryStored(f.fs.geo.fsType, f.fs.logical[f.dirSect], f.dirOff, f.sclust, f.objsize, tm);
    ghost var changed := f.modified;
    Limits(s);
    var res := f.Sync(tm);
    e := Event(Sync, [], 0);
    if changed {
      SyncedKeepsRest(s, f.St(), f.dirSect, f.dirOff, w, tm);
      FirstClusterFits(s);
      EntryReadsBack(f.fs.geo.fsType, s.l[f.dirSect], f.dirOff, f.sclust, f.objsize, tm);
    } else {
      BecameNothing(s);
      BecameKeepsRest(s, f.St(), c, f.dirSect, f.dirOff);
    }
  }

  /** Any sequence of operations does to the file what Next says of each in turn, and keeps the rest; and
      after every f_sync the medium alone, which is then media[i], holds the file, and its FSInfo, if it is
      kept on the volume, the number of free clusters. */
  method Play(f: Fil, ops: seq<Op>, tm: nat)
    returns (events: seq<Event>, ghost states: seq<Abstract>, ghost media: seq<seq<Sector>>)
    requires Ready(f) && forall op :: op in ops ==> Fits(op) && (op.Sync? ==> SyncSafe(f))
    modifies f, f.buf, f.fs, f.fs.win, f.fs.disk
    ensures Ready(f) && |events| == |ops| == |media| && forall i :: 0 <= i < |ops| ==> events[i].op == ops[i]
    ensures Runs(f.mayRead, f.mayWrite, old(Capacity(f.St())), states, events)
    ensures states[0] == old(User(f)) && states[|ops|] == User(f)
    ensures KeepsRest(old(f.St()), f.St(), f.dirSect, f.dirOff)
    ensures old(Settled(f)) ==> Settled(f) && OnMedia(f.fs.geo, f.dirSect, f.dirOff, ops, states, media)
    ensures old(Settled(f) && InfoSettled(f)) ==>
              InfoSettled(f)
              && (f.fs.tracked ==>
                    InfoOnMedia(f.fs.geo, ops, media, f.fs.counted)
                    && (ops != [] && ops[|ops| - 1].Sync? ==> f.fs.InfoTold()))
  {
    hide Judge, FileBytes, KeepsOthers, Laid, KeepsRest, Filed, Capacity, Coherent, Mirrored, Decodes, Holding, Next;
    hide Forest;
    hide Settled, Recorded, InfoSettled, InfoExact, Fatfs.InfoTold;
    ghost var s, cap := f.St(), Capacity(f.St());
    events, states, media := [], [User(f)], [];
    KeepsRestAll(s, f.dirSect, f.dirOff);
    for i := 0 to |ops|
      invariant Ready(f) && |events| == |media| == i && forall j :: 0 <= j < i ==> events[j].op == ops[j]
      invariant Runs(f.mayRead, f.mayWrite, cap, states, events)
      invariant states[0] == old(User(f)) && states[i] == User(f)
      invariant KeepsRest(s, f.St(), f.dirSect, f.dirOff) && Capacity(f.St()) == cap
      invariant old(Settled(f)) ==> Settled(f) && OnMedia(f.fs.geo, f.dirSect, f.dirOff, ops[..i], states, media)
      invariant old(Settled(f) && InfoSettled(f)) ==>
                  InfoSettled(f)
                  && (f.fs.tracked ==>
                        InfoOnMedia(f.fs.geo, ops[..i], media, f.fs.counted)
                        && (i > 0 && ops[i - 1].Sync? ==> f.fs.InfoTold()))
    {
      ghost var t := f.St();
      var e := Do(f, ops[i], tm);
      KeepsRestOn(s, t, f.St(), f.dirSect, f.dirOff);
      RunsOn(f.mayRead, f.mayWrite, cap, states, events, e, User(f));
      if ops[i].Sync? && Settled(f) {
        SettledRecords(f);
        if InfoSettled(f) && f.fs.tracked { SettledInfo(f); }
      }
      assert ops[..i + 1] == ops[..i] + [ops[i]];
      events, states, media := events + [e], states + [User(f)], media + [f.fs.disk.sectors];
    }
    assert ops[..|ops|] == ops;
  }

  /** After every f_sync of a run the medium of that time holds the file of that time. */
  ghost predicate OnMedia(g: Geometry, ds: nat, off: nat, ops: seq<Op>, states: seq<Abstract>,
                          media: seq<seq<Sector>>) {
    |media| == |ops| && |states| == |ops| + 1
    && forall i :: 0 <= i < |ops| && ops[i].Sync? ==> Recorded(g, media[i], ds, off, states[i + 1].bytes)
  }

  /** After every f_sync of a run FSInfo on the medium of that time tells the free clusters of its FAT. */
  ghost predicate InfoOnMedia(g: Geometry, ops: seq<Op>, media: seq<seq<Sector>>, counted: bool) {
    |media| == |ops| && forall i :: 0 <= i < |ops| && ops[i].Sync? ==> InfoExact(g, media[i], counted)
  }

  method Do(f: Fil, op: Op, tm: nat) returns (e: Event)
    requires Ready(f) && Fits(op) && (op.Sync? ==> SyncSafe(f))
    modifies f, f.buf, f.fs, f.fs.win, f.fs.disk
    ensures Ready(f) && e.op == op && Settling(f) && (op.Sync? ==> !f.modified)
    ensures Done(f.mayRead, f.mayWrite, old(f.St()), old(User(f)), e, f.St(), User(f), f.dirSect, f.dirOff)
  {
    hide Judge, Ready, KeepsRest, Capacity, Next, Settled;
    match op {
      case Read(n) => e := DoRead(f, n);
      case Write(d) => e := DoWrite(f, d);
      case Seek(o) => e := DoSeek(f, o);
      case Truncate => e := DoTruncate(f);
      case Sync => e := DoSync(f, tm);
    }
  }

  lemma KeepsRestAll(s: State, ds: nat, off: nat)
    requires Judge(s).Sound? && Filed(s, ds)
    ensures KeepsRest(s, s, ds, off)
  {
    EntryApart(s, ds);
  }
}
