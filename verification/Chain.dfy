/** Removing, creating and stretching cluster chains on the volume, and counting free clusters. */
module Chain {
  import opened Bytes
  import opened Geometry
  import opened Window
  import opened FatSpec
  import opened Fat
  import opened ChainSpec

  /** remove_chain: free the chain from clst on, and end the chain before it at pclst when that is not 0. */
  method RemoveChain(fs: Fatfs, clst: nat, pclst: nat) returns (res: FResult)
    requires fs.Valid()
    modifies fs`wflag, fs`winsect, fs`logical, fs`fat, fs`freeClst, fs`infoDue, fs.win, fs.disk
    ensures fs.Valid() && SameButFat(fs.geo, old(fs.logical), fs.logical)
    ensures fs.disk.reliable ==> res != DISK_ERR
    ensures !fs.geo.IsCluster(clst) || (pclst != 0 && !fs.geo.IsCluster(pclst)) ==>
              res == INT_ERR && fs.logical == old(fs.logical) && fs.freeClst == old(fs.freeClst)
    ensures fs.geo.IsCluster(clst) && (pclst == 0 || fs.geo.IsCluster(pclst)) && res != DISK_ERR ==>
              var f := if pclst == 0 then old(fs.fat) else old(fs.fat)[pclst := Clip(fs.geo.fsType, EOC)];
              var u := Unlink(f, clst);
              fs.fat == u.0 && res == u.2 && fs.freeClst == CountAfterFreeing(old(fs.freeClst), u.1, fs.geo.nFatent)
    ensures old(CountOk(fs.fat, fs.freeClst)) && (pclst == 0 || (fs.geo.IsCluster(pclst) && old(fs.fat)[pclst] != 0))
              && res != DISK_ERR ==>
              CountOk(fs.fat, fs.freeClst)
    ensures fs.infoDue <==> old(fs.infoDue) || fs.freeClst != old(fs.freeClst)
    ensures fs.winsect == old(fs.winsect) || fs.winsect == NO_SECTOR || fs.geo.InFat(fs.winsect)
    ensures res == OK ==> fs.geo.InFat(fs.winsect)
  {
    ghost var f, free := fs.fat, fs.freeClst;
    EndMark(fs.geo, fs.size);
    if clst < 2 || clst >= fs.geo.nFatent { return INT_ERR; }
    if pclst != 0 {
      res := PutFat(fs, pclst, EOC);
      if res != OK { return; }
    }
    res := FreeChain(fs, clst);
    RemovedCount(f, free, clst, pclst, Clip(fs.geo.fsType, EOC));
  }

  lemma RemovedCount(f: seq<nat>, free: dword, clst: nat, pclst: nat, e: nat)
    requires 2 <= clst < |f| <= DWORD_MAX && pclst != 1 && pclst < |f| && e != 0
    ensures CountOk(f, free) && (pclst == 0 || f[pclst] != 0) ==>
              var u := Unlink(if pclst == 0 then f else f[pclst := e], clst);
              CountOk(u.0, CountAfterFreeing(free, u.1, |f|))
  {
    var h := if pclst == 0 then f else f[pclst := e];
    UnlinkCounts(h, clst);
    if pclst != 0 { FreeBelowSet(f, pclst, e, |f|); }
    if CountOk(f, free) && (pclst == 0 || f[pclst] != 0) {
      FreeingCounts(f, Unlink(h, clst).0, free, Unlink(h, clst).1);
    }
  }

  /** Mark a used cluster free and count it: the middle of an iteration of remove_chain. */
  method FreeCluster(fs: Fatfs, clst: nat) returns (res: FResult)
    requires fs.Valid() && fs.geo.IsCluster(clst)
    modifies fs`wflag, fs`winsect, fs`logical, fs`fat, fs`freeClst, fs`infoDue, fs.win, fs.disk
    ensures fs.Valid() && SameButFat(fs.geo, old(fs.logical), fs.logical)
    ensures (res == OK || res == DISK_ERR) && (fs.disk.reliable ==> res == OK)
    ensures res == OK ==> fs.fat == old(fs.fat)[clst := 0] && fs.geo.InFat(fs.winsect)
                          && fs.freeClst == CountAfterFreeing(old(fs.freeClst), 1, fs.geo.nFatent)
    ensures fs.freeClst >= old(fs.freeClst)
    ensures fs.infoDue <==> old(fs.infoDue) || fs.freeClst != old(fs.freeClst)
    ensures fs.winsect == old(fs.winsect) || fs.winsect == NO_SECTOR || fs.geo.InFat(fs.winsect)
  {
    res := PutFat(fs, clst, 0);
    if res != OK { return; }
    if fs.freeClst < fs.geo.nFatent - 2 {
      fs.freeClst := fs.freeClst + 1;
      fs.infoDue := true;
    }
  }

  /** The loop of remove_chain: on any FAT content it ends, having done what Unlink says. */
  method FreeChain(fs: Fatfs, start: nat) returns (res: FResult)
    requires fs.Valid() && fs.geo.IsCluster(start)
    modifies fs`wflag, fs`winsect, fs`logical, fs`fat, fs`freeClst, fs`infoDue, fs.win, fs.disk
    ensures fs.Valid() && SameButFat(fs.geo, old(fs.logical), fs.logical)
    ensures fs.disk.reliable ==> res != DISK_ERR
    ensures res != DISK_ERR ==>
              var u := Unlink(old(fs.fat), start);
              fs.fat == u.0 && res == u.2 && fs.freeClst == CountAfterFreeing(old(fs.freeClst), u.1, fs.geo.nFatent)
    ensures fs.infoDue <==> old(fs.infoDue) || fs.freeClst != old(fs.freeClst)
    ensures fs.winsect == old(fs.winsect) || fs.winsect == NO_SECTOR || fs.geo.InFat(fs.winsect)
    ensures res == OK ==> fs.geo.InFat(fs.winsect)
  {
    var clst := start;
    ghost var u, done := Unlink(fs.fat, start), 0;
    while true
      invariant fs.Valid() && SameButFat(fs.geo, old(fs.logical), fs.logical)
      invariant fs.geo.IsCluster(clst)
      invariant Pending(fs.fat, clst, done, u)
      invariant fs.freeClst == CountAfterFreeing(old(fs.freeClst), done, fs.geo.nFatent)
      invariant fs.freeClst >= old(fs.freeClst)
      invariant fs.infoDue <==> old(fs.infoDue) || fs.freeClst != old(fs.freeClst)
      invariant fs.winsect == old(fs.winsect) || fs.winsect == NO_SECTOR || fs.geo.InFat(fs.winsect)
      decreases fs.geo.nFatent - FreeCount(fs.fat)
    {
      ghost var f := fs.fat;
      var nxt := GetFat(fs, clst);
      PendingStep(f, clst, done, u);
      CountOneMore(old(fs.freeClst), done, fs.geo.nFatent);
      if nxt == 0 { return OK; }
      if nxt == 1 { return INT_ERR; }
      if nxt == FAT_DISK_ERR { return DISK_ERR; }
      res := FreeCluster(fs, clst);
      if res != OK { return; }
      done := done + 1;
      clst := nxt;
      if clst >= fs.geo.nFatent { return OK; }
    }
  }

  /** Having freed `done` clusters and come to clst, the rest of the removal gives u. */
  ghost predicate Pending(f: seq<nat>, clst: nat, done: nat, u: (seq<nat>, nat, FResult)) {
    2 <= clst < |f| && var v := Unlink(f, clst); u.0 == v.0 && u.1 == v.1 + done && u.2 == v.2
  }

  lemma PendingStep(f: seq<nat>, clst: nat, done: nat, u: (seq<nat>, nat, FResult))
    requires Pending(f, clst, done, u)
    ensures f[clst] == 0 ==> u == (f, done, OK)
    ensures f[clst] == 1 ==> u == (f, done, INT_ERR)
    ensures f[clst] >= |f| ==> u == (f[clst := 0], done + 1, OK)
    ensures 2 <= f[clst] < |f| ==> Pending(f[clst := 0], f[clst], done + 1, u)
    ensures f[clst] != 0 ==> FreeCount(f[clst := 0]) == FreeCount(f) + 1
  {
    FreeBelowSet(f, clst, 0, |f|);
  }

  /** c is met before `found` when searching f circularly from the cluster after `hint`. */
  ghost predicate MetBefore(f: seq<nat>, hint: nat, c: nat, found: nat) {
    2 <= c < |f| && if found > hint then hint < c < found else hint < c || c < found
  }

  /** Every cluster met before `found` is in use. */
  ghost predicate FirstAfter(f: seq<nat>, hint: nat, found: nat) {
    forall c: nat :: MetBefore(f, hint, c, found) ==> f[c] != 0
  }

  /** Every cluster met up to ncl is in use. */
  ghost predicate Passed(f: seq<nat>, hint: nat, ncl: nat, wrapped: bool) {
    forall c :: 2 <= c < |f| && (if wrapped then hint < c || c <= ncl else hint < c <= ncl) ==> f[c] != 0
  }

  /** The circular search of create_chain: the first free cluster after `hint`, 0 when no cluster is
      free, 1 when an entry of 1 is met. */
  method SearchFree(fs: Fatfs, hint: nat) returns (ncl: nat)
    requires fs.Valid() && 1 <= hint < fs.geo.nFatent
    modifies fs`wflag, fs`winsect, fs.win, fs.disk
    ensures fs.Valid()
    ensures ncl == FAT_DISK_ERR ==> !fs.disk.reliable
    ensures ncl == 0 ==> NoneFree(fs.fat)
    ensures ncl == 1 ==> exists c :: 2 <= c < fs.geo.nFatent && fs.fat[c] == 1
    ensures ncl > 1 && ncl != FAT_DISK_ERR ==>
              fs.geo.IsCluster(ncl) && fs.fat[ncl] == 0 && FirstAfter(fs.fat, hint, ncl)
    ensures fs.winsect == old(fs.winsect) || fs.winsect == NO_SECTOR || fs.geo.InFat(fs.winsect)
    ensures fs.wflag ==> old(fs.wflag)
  {
    hide Fatfs.Tracked, Coherent, Mirrored, Decodes;
    ghost var f := fs.fat;
    ncl := hint;
    ghost var wrapped := false;
    while true
      invariant fs.Valid() && (if wrapped then 2 <= ncl < hint else hint <= ncl < fs.geo.nFatent)
      invariant Passed(f, hint, ncl, wrapped)
      invariant fs.winsect == old(fs.winsect) || fs.winsect == NO_SECTOR || fs.geo.InFat(fs.winsect)
      invariant fs.wflag ==> old(fs.wflag)
      decreases if wrapped then hint - ncl else fs.geo.nFatent + hint - ncl
    {
      ghost var last := ncl;
      ncl := ncl + 1;
      if ncl >= fs.geo.nFatent {
        PassedWrap(f, hint);
        ncl, last := 2, 1;
        wrapped := true;
        if ncl > hint { return 0; }
      }
      var cs := GetFat(fs, ncl);
      PassedStep(f, hint, last, wrapped);
      if cs == 0 { return; }
      if cs == 1 || cs == FAT_DISK_ERR { return cs; }
      if ncl == hint { return 0; }
    }
  }

  lemma PassedStep(f: seq<nat>, hint: nat, ncl: nat, wrapped: bool)
    requires Passed(f, hint, ncl, wrapped) && 1 <= ncl < |f| - 1 && (if wrapped then ncl < hint else hint <= ncl)
    ensures FirstAfter(f, hint, ncl + 1)
    ensures f[ncl + 1] != 0 ==> Passed(f, hint, ncl + 1, wrapped)
    ensures f[ncl + 1] != 0 && wrapped && ncl + 1 == hint ==> NoneFree(f)
  {
  }

  lemma PassedWrap(f: seq<nat>, hint: nat)
    requires |f| > 2 && Passed(f, hint, |f| - 1, false)
    ensures Passed(f, hint, 1, true)
    ensures hint < 2 ==> NoneFree(f)
  {
  }

  /** Where the circular search of create_chain starts. */
  function Hint(last: nat, clst: nat, nFatent: nat): nat {
    if clst == 0 then (if last == 0 || last >= nFatent then 1 else last)
    else if 2 <= last < nFatent then last else clst
  }

  /** Cluster r is the one create_chain has to choose: the one after clst when that is free, so that files
      stay contiguous, else the first free one after the hint. */
  ghost predicate Chosen(f: seq<nat>, last: nat, clst: nat, r: nat) {
    var follow := if clst + 1 < |f| then clst + 1 else 2;
    if clst != 0 && follow < |f| && f[follow] == 0 then r == follow else FirstAfter(f, Hint(last, clst, |f|), r)
  }

  /** The choice of create_chain: the cluster after the one to stretch when it is free, else a search
      from the last allocated cluster, or for a new chain a search from there. */
  method ChooseCluster(fs: Fatfs, clst: nat) returns (ncl: nat)
    requires fs.Valid() && (clst == 0 || fs.geo.IsCluster(clst))
    modifies fs`wflag, fs`winsect, fs.win, fs.disk
    ensures fs.Valid()
    ensures ncl == FAT_DISK_ERR ==> !fs.disk.reliable
    ensures ncl == 0 ==> NoneFree(fs.fat)
    ensures ncl == 1 ==> exists c :: 2 <= c < fs.geo.nFatent && fs.fat[c] == 1
    ensures ncl > 1 && ncl != FAT_DISK_ERR ==> fs.geo.IsCluster(ncl) && fs.fat[ncl] == 0
    ensures ncl > 1 && ncl != FAT_DISK_ERR ==> Chosen(fs.fat, fs.lastClst, clst, ncl)
    ensures fs.winsect == old(fs.winsect) || fs.winsect == NO_SECTOR || fs.geo.InFat(fs.winsect)
    ensures fs.wflag ==> old(fs.wflag)
  {
    var scl;
    if clst == 0 {
      scl := fs.lastClst;
      if scl == 0 || scl >= fs.geo.nFatent { scl := 1; }
    } else {
      scl := clst;
      ncl := scl + 1;
      if ncl >= fs.geo.nFatent { ncl := 2; }
      var cs := GetFat(fs, ncl);
      if cs == 1 || cs == FAT_DISK_ERR { return cs; }
      if cs == 0 { return; }
      cs := fs.lastClst;
      if 2 <= cs < fs.geo.nFatent { scl := cs; }
    }
    ncl := SearchFree(fs, scl);
  }

  /** Mark cluster r as an end and link it from clst when that is not 0. */
  method Link(fs: Fatfs, clst: nat, r: nat) returns (res: FResult)
    requires fs.Valid() && fs.geo.IsCluster(r) && (clst == 0 || fs.geo.IsCluster(clst))
    modifies fs`wflag, fs`winsect, fs`logical, fs`fat, fs.win, fs.disk
    ensures fs.Valid() && SameButFat(fs.geo, old(fs.logical), fs.logical)
    ensures (res == OK || res == DISK_ERR) && (fs.disk.reliable ==> res == OK)
    ensures res == OK ==>
              var g := old(fs.fat)[r := Clip(fs.geo.fsType, EOC)];
              fs.fat == (if clst == 0 then g else g[clst := r])
    ensures fs.winsect == old(fs.winsect) || fs.winsect == NO_SECTOR || fs.geo.InFat(fs.winsect)
    ensures res == OK ==> fs.geo.InFat(fs.winsect)
  {
    EndMark(fs.geo, fs.size);
    res := PutFat(fs, r, EOC);
    if res == OK && clst != 0 { res := PutFat(fs, clst, r); }
  }

  /** The end of create_chain: take cluster r and update the allocation state. */
  method Allocate(fs: Fatfs, clst: nat, r: nat) returns (res: FResult)
    requires fs.Valid() && fs.geo.IsCluster(r) && (clst == 0 || fs.geo.IsCluster(clst)) && fs.freeClst > 0
    modifies fs`wflag, fs`winsect, fs`logical, fs`fat, fs`freeClst, fs`lastClst, fs`infoDue, fs.win, fs.disk
    ensures fs.Valid() && SameButFat(fs.geo, old(fs.logical), fs.logical)
    ensures (res == OK || res == DISK_ERR) && (fs.disk.reliable ==> res == OK)
    ensures res == OK ==>
              var g := old(fs.fat)[r := Clip(fs.geo.fsType, EOC)];
              fs.fat == (if clst == 0 then g else g[clst := r]) && fs.lastClst == r
              && fs.freeClst ==
                  (if old(fs.freeClst) <= fs.geo.nFatent - 2 then old(fs.freeClst) - 1 else old(fs.freeClst))
    ensures if res == OK then fs.infoDue
            else fs.infoDue == old(fs.infoDue) && fs.freeClst == old(fs.freeClst) && fs.lastClst == old(fs.lastClst)
    ensures fs.winsect == old(fs.winsect) || fs.winsect == NO_SECTOR || fs.geo.InFat(fs.winsect)
    ensures res == OK ==> fs.geo.InFat(fs.winsect)
  {
    hide Coherent, Mirrored, Decodes;
    res := Link(fs, clst, r);
    if res == OK {
      fs.lastClst := r;
      if fs.freeClst <= fs.geo.nFatent - 2 { fs.freeClst := fs.freeClst - 1; }
      fs.infoDue := true;
    }
  }

  /** What create_chain decides before it looks for a cluster: the answer, if there is one already. */
  ghost predicate AlreadyAnswered(f: seq<nat>, clst: nat) {
    clst != 0 && (clst == 1 || clst >= |f| || f[clst] < |f|)
  }

  /** create_chain: 0 when no cluster is free, 1 on an internal error, 0xFFFFFFFF on a disk error,
      else the cluster that follows clst, which is allocated if there was none. */
  method CreateChain(fs: Fatfs, clst: nat) returns (r: nat)
    requires fs.Valid()
    modifies fs`wflag, fs`winsect, fs`logical, fs`fat, fs`freeClst, fs`lastClst, fs`infoDue, fs.win, fs.disk
    ensures fs.Valid() && SameButFat(fs.geo, old(fs.logical), fs.logical)
    ensures r == FAT_DISK_ERR ==>
              !fs.disk.reliable && fs.freeClst == old(fs.freeClst) && fs.lastClst == old(fs.lastClst)
    ensures fs.infoDue <==>
              old(fs.infoDue) || (!AlreadyAnswered(old(fs.fat), clst) && 2 <= r && r != FAT_DISK_ERR)
    ensures AlreadyAnswered(old(fs.fat), clst) && r != FAT_DISK_ERR ==>
              fs.logical == old(fs.logical) && fs.fat == old(fs.fat) && fs.freeClst == old(fs.freeClst)
              && fs.lastClst == old(fs.lastClst)
              && r == if clst != 1 && clst < fs.geo.nFatent && old(fs.fat)[clst] >= 2 then old(fs.fat)[clst] else 1
    ensures !AlreadyAnswered(old(fs.fat), clst) && r < 2 ==>
              fs.logical == old(fs.logical) && fs.fat == old(fs.fat) && fs.freeClst == old(fs.freeClst)
              && fs.lastClst == old(fs.lastClst)
    ensures !AlreadyAnswered(old(fs.fat), clst) && r == 0 ==> fs.freeClst == 0 || NoneFree(fs.fat)
    ensures !AlreadyAnswered(old(fs.fat), clst) && r == 1 ==> exists c :: 2 <= c < fs.geo.nFatent && fs.fat[c] == 1
    ensures !AlreadyAnswered(old(fs.fat), clst) && 2 <= r && r != FAT_DISK_ERR ==>
              var e := Clip(fs.geo.fsType, EOC);
              fs.geo.IsCluster(r) && old(fs.fat)[r] == 0 && Chosen(old(fs.fat), old(fs.lastClst), clst, r)
              && fs.fat == (if clst == 0 then old(fs.fat)[r := e] else old(fs.fat)[r := e][clst := r])
              && old(fs.freeClst) != 0 && fs.lastClst == r
              && fs.freeClst ==
                  (if old(fs.freeClst) <= fs.geo.nFatent - 2 then old(fs.freeClst) - 1 else old(fs.freeClst))
    ensures old(CountOk(fs.fat, fs.freeClst)) && r != FAT_DISK_ERR ==> CountOk(fs.fat, fs.freeClst)
    ensures !AlreadyAnswered(old(fs.fat), clst) && old(CountOk(fs.fat, fs.freeClst)) && r != FAT_DISK_ERR && r != 1 ==>
              (r == 0 <==> NoneFree(old(fs.fat)))
    ensures fs.winsect == old(fs.winsect) || fs.winsect == NO_SECTOR || fs.geo.InFat(fs.winsect)
    ensures 2 <= r && r != FAT_DISK_ERR ==> fs.geo.InFat(fs.winsect)
    ensures r != FAT_DISK_ERR && (AlreadyAnswered(old(fs.fat), clst) || r < 2) ==> (fs.wflag ==> old(fs.wflag))
  {
    ghost var f, free := fs.fat, fs.freeClst;
    EndMark(fs.geo, fs.size);
    FreeBelowZero(f, |f|);
    if clst != 0 {
      var cs := GetFat(fs, clst);
      if cs < 2 { return 1; }
      if cs == FAT_DISK_ERR { return cs; }
      if cs < fs.geo.nFatent { return cs; }
    }
    if fs.freeClst == 0 { return 0; }
    r := ChooseCluster(fs, clst);
    if r < 2 || r == FAT_DISK_ERR { return; }
    var res := Allocate(fs, clst, r);
    if res != OK { return FAT_DISK_ERR; }
    TakenCount(f, free, clst, r, Clip(fs.geo.fsType, EOC));
  }

  lemma TakenCount(f: seq<nat>, free: nat, clst: nat, r: nat, e: nat)
    requires 2 <= r < |f| && f[r] == 0 && e != 0 && (clst == 0 || (2 <= clst < |f| && f[clst] >= |f|))
    ensures var g := if clst == 0 then f[r := e] else f[r := e][clst := r];
            CountOk(f, free) ==> CountOk(g, CountAfterTaking(free, |f|))
  {
    FreeBelowSet(f, r, e, |f|);
    if clst != 0 { FreeBelowSet(f[r := e], clst, r, |f|); }
  }

  // ---------------------------------------------------------------- counting free clusters

  /** Entries below n that are zero, entries 0 and 1 included. */
  ghost function ZerosBelow(f: seq<nat>, n: nat): (k: nat)
    requires n <= |f|
    ensures k <= n
  {
    if n == 0 then 0 else ZerosBelow(f, n - 1) + if f[n - 1] == 0 then 1 else 0
  }

  lemma {:induction false} ZerosAreFree(f: seq<nat>, n: nat)
    requires 2 <= n <= |f|
    ensures ZerosBelow(f, n) == FreeBelow(f, n) + ZerosBelow(f, 2)
  {
    if n > 2 { ZerosAreFree(f, n - 1); }
  }

  /** f_getfree on a FAT12 volume: entry by entry. */
  method CountFat12(fs: Fatfs) returns (res: FResult, nfree: nat)
    requires fs.Valid() && fs.geo.fsType == FAT12
    modifies fs`wflag, fs`winsect, fs.win, fs.disk
    ensures fs.Valid() && (fs.disk.reliable ==> res != DISK_ERR)
    ensures res == OK ==> nfree == FreeCount(fs.fat)
    ensures res == INT_ERR ==> exists c :: 2 <= c < |fs.fat| && fs.fat[c] == 1
  {
    res, nfree := OK, 0;
    ghost var f := fs.fat;
    var clst := 2;
    while clst < fs.geo.nFatent
      invariant fs.Valid() && 2 <= clst <= fs.geo.nFatent
      invariant nfree == FreeBelow(f, clst)
    {
      var stat := GetFat(fs, clst);
      if stat == FAT_DISK_ERR { return DISK_ERR, nfree; }
      if stat == 1 { return INT_ERR, nfree; }
      if stat == 0 { nfree := nfree + 1; }
      clst := clst + 1;
    }
  }

  /** Where the scan of a FAT16 or FAT32 volume stands after k entries: it has moved the window `moved`
      times and is i bytes into the sector it shows, or at its end when i is 0. */
  ghost predicate ScanAt(t: FatType, k: nat, i: nat, moved: nat) {
    t != FAT12 && i < 512 && i % EntryWidth(t) == 0
    && EntryOffset(t, k) == if i == 0 then 512 * moved else 512 * moved - 512 + i
  }

  lemma ScanStep(t: FatType, k: nat, i: nat, moved: nat)
    requires ScanAt(t, k, i, moved)
    ensures i + EntryWidth(t) <= 512
    ensures ScanAt(t, k + 1, (i + EntryWidth(t)) % 512, if i == 0 then moved + 1 else moved)
    ensures EntryOffset(t, k) / 512 == (if i == 0 then moved else moved - 1) && EntryOffset(t, k) % 512 == i
  {
    if t == FAT16 { assert i % 2 == 0; } else { assert i % 4 == 0; }
  }

  /** The entry the scan reads from the window is the next entry of the FAT. */
  lemma ScannedEntry(fs: Fatfs, k: nat, i: nat)
    requires fs.Valid() && fs.geo.fsType != FAT12 && k < fs.geo.nFatent
    requires i == EntryOffset(fs.geo.fsType, k) % 512 && i + EntryWidth(fs.geo.fsType) <= 512
    requires fs.winsect == fs.geo.fatbase + EntryOffset(fs.geo.fsType, k) / 512
    ensures fs.geo.fsType == FAT16 ==> fs.fat[k] == LoadWord(fs.win[..], i)
    ensures fs.geo.fsType == FAT32 ==> fs.fat[k] == Load28(fs.win[..], i)
  {
    FatEntry(fs, k);
    if fs.geo.fsType == FAT16 { WordAt(fs.geo, fs.logical, k); } else { DwordAt(fs.geo, fs.logical, k); }
    EntryInFat(fs.geo, fs.size, k);
  }

  /** One turn of the scan: move on to sector `sect` when the last one is used up, and test entry k. */
  method ScanEntry(fs: Fatfs, ghost k: nat, i: nat, sect: nat) returns (res: FResult, zero: bool)
    requires fs.Valid() && k < fs.geo.nFatent && sect >= fs.geo.fatbase
    requires ScanAt(fs.geo.fsType, k, i, sect - fs.geo.fatbase) && (i != 0 ==> fs.winsect == sect - 1)
    modifies fs`wflag, fs`winsect, fs.win, fs.disk
    ensures fs.Valid() && (res == OK || res == DISK_ERR) && (fs.disk.reliable ==> res == OK)
    ensures res == OK ==> zero == (fs.fat[k] == 0) && fs.winsect == (if i == 0 then sect else sect - 1)
  {
    ScanStep(fs.geo.fsType, k, i, sect - fs.geo.fatbase);
    EntryInFat(fs.geo, fs.size, k);
    res, zero := OK, false;
    if i == 0 {
      FatSector(fs.geo, fs.size, EntryOffset(fs.geo.fsType, k));
      res := fs.MoveWindow(sect);
      if res != OK { return; }
    }
    ScannedEntry(fs, k, i);
    zero := if fs.geo.fsType == FAT16 then LoadWord(fs.win[..], i) == 0 else Load28(fs.win[..], i) == 0;
  }

  /** f_getfree on a FAT16 or FAT32 volume: sector by sector through the window, entries 0 and 1 included. */
  method ScanFat(fs: Fatfs) returns (res: FResult, nfree: nat)
    requires fs.Valid() && fs.geo.fsType != FAT12
    modifies fs`wflag, fs`winsect, fs.win, fs.disk
    ensures fs.Valid() && (res == OK || res == DISK_ERR) && (fs.disk.reliable ==> res == OK)
    ensures res == OK ==> nfree == ZerosBelow(fs.fat, |fs.fat|)
  {
    hide Coherent, Mirrored, Decodes;
    res, nfree := OK, 0;
    ghost var f := fs.fat;
    var clst, sect, i: nat := fs.geo.nFatent, fs.geo.fatbase, 0;
    while clst > 0
      invariant fs.Valid() && res == OK && 0 <= clst <= fs.geo.nFatent && sect >= fs.geo.fatbase
      invariant ScanAt(fs.geo.fsType, fs.geo.nFatent - clst, i, sect - fs.geo.fatbase)
      invariant i != 0 ==> fs.winsect == sect - 1
      invariant nfree == ZerosBelow(f, fs.geo.nFatent - clst)
    {
      ghost var k := fs.geo.nFatent - clst;
      ScanStep(fs.geo.fsType, k, i, sect - fs.geo.fatbase);
      var zero;
      res, zero := ScanEntry(fs, k, i, sect);
      if res != OK { return; }
      if zero { nfree := nfree + 1; }
      if i == 0 { sect := sect + 1; }
      i := (i + EntryWidth(fs.geo.fsType)) % 512;
      clst := clst - 1;
    }
  }

  /** f_getfree: the cached count when it is known, else a scan, whose result is cached. */
  method GetFree(fs: Fatfs) returns (res: FResult, nclst: nat)
    requires fs.Valid()
    modifies fs`wflag, fs`winsect, fs`freeClst, fs`infoDue, fs.win, fs.disk
    ensures fs.Valid() && (fs.disk.reliable ==> res != DISK_ERR)
    ensures old(fs.freeClst) <= fs.geo.nFatent - 2 ==> res == OK && nclst == fs.freeClst == old(fs.freeClst)
    ensures res == OK && old(fs.freeClst) > fs.geo.nFatent - 2 ==>
              nclst == fs.freeClst
              && nclst == FreeCount(fs.fat) + (if fs.geo.fsType == FAT12 then 0 else ZerosBelow(fs.fat, 2))
    ensures res == OK && old(CountOk(fs.fat, fs.freeClst)) && fs.fat[0] != 0 && fs.fat[1] != 0 ==>
              nclst == FreeCount(fs.fat) && CountOk(fs.fat, fs.freeClst)
    ensures res != OK ==> fs.freeClst == old(fs.freeClst)
    ensures fs.infoDue <==> old(fs.infoDue) || (res == OK && old(fs.freeClst) > fs.geo.nFatent - 2)
  {
    hide Coherent, Mirrored, Image;
    if fs.freeClst <= fs.geo.nFatent - 2 { return OK, fs.freeClst; }
    if fs.geo.fsType == FAT12 {
      res, nclst := CountFat12(fs);
    } else {
      res, nclst := ScanFat(fs);
      ZerosAreFree(fs.fat, |fs.fat|);
    }
    if res == OK {
      fs.freeClst := nclst;
      fs.infoDue := true;
    }
  }
}
