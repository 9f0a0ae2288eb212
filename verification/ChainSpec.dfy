/** Cluster chains over a FAT, seen as a map from clusters to values. */
module ChainSpec {
  import opened Bytes
  import opened Window

  /** s is the chain that starts at s[0]: each cluster's entry names the next, the last one's is an
      end mark. */
  ghost predicate IsChain(f: seq<nat>, s: seq<nat>) {
    && |s| > 0
    && (forall i :: 0 <= i < |s| ==> 2 <= s[i] < |f|)
    && (forall i :: 0 <= i < |s| - 1 ==> f[s[i]] == s[i + 1])
    && f[s[|s| - 1]] >= |f|
  }

  lemma ChainNext(f: seq<nat>, s: seq<nat>, i: nat)
    requires IsChain(f, s) && i < |s|
    ensures if i < |s| - 1 then f[s[i]] == s[i + 1] && 2 <= f[s[i]] < |f| else f[s[i]] >= |f|
  {
  }

  lemma {:induction false} ChainSameTail(f: seq<nat>, s: seq<nat>, t: seq<nat>, i: nat, j: nat)
    requires IsChain(f, s) && IsChain(f, t) && i < |s| && j < |t| && s[i] == t[j]
    ensures s[i..] == t[j..]
    decreases |s| - i
  {
    ChainNext(f, s, i);
    ChainNext(f, t, j);
    if i < |s| - 1 && j < |t| - 1 {
      ChainSameTail(f, s, t, i + 1, j + 1);
      assert s[i..] == [s[i]] + s[i + 1..] && t[j..] == [t[j]] + t[j + 1..];
    } else {
      assert i == |s| - 1 && j == |t| - 1;
      assert s[i..] == [s[i]] && t[j..] == [t[j]];
    }
  }

  /** A chain visits no cluster twice. */
  lemma ChainNoRepeat(f: seq<nat>, s: seq<nat>)
    requires IsChain(f, s)
    ensures forall i, j :: 0 <= i < j < |s| ==> s[i] != s[j]
  {
    forall i, j | 0 <= i < j < |s| ensures s[i] != s[j] {
      if s[i] == s[j] { ChainSameTail(f, s, s, i, j); assert false; }
    }
  }

  /** Chains that start at different clusters nothing links to share no cluster. */
  ghost predicate Apart(s: seq<nat>, t: seq<nat>) {
    forall i, j :: 0 <= i < |s| && 0 <= j < |t| ==> s[i] != t[j]
  }

  ghost predicate Reaches(f: seq<nat>, c: nat) {
    exists s :: IsChain(f, s) && s[0] == c
  }

  /** No cluster links to c. */
  ghost predicate Unlinked(f: seq<nat>, c: nat) {
    forall a :: 2 <= a < |f| ==> f[a] != c
  }

  ghost predicate NoSharedLink(f: seq<nat>) {
    forall a, b :: 2 <= a < |f| && 2 <= b < |f| && a != b && f[a] == f[b] ==> f[a] < 2 || f[a] >= |f|
  }

  /** The FAT is a forest of disjoint acyclic chains: no entry is 1, every used cluster leads to an end
      mark (so no link leads to a free cluster and none closes a cycle), and no two link to the same. */
  ghost predicate Forest(f: seq<nat>) {
    && (forall c :: 2 <= c < |f| ==> f[c] != 1)
    && (forall c {:trigger Reaches(f, c)} :: 2 <= c < |f| && f[c] != 0 ==> Reaches(f, c))
    && NoSharedLink(f)
  }

  // ---------------------------------------------------------------- free clusters

  /** Number of free clusters below n. */
  ghost function FreeBelow(f: seq<nat>, n: nat): (k: nat)
    requires n <= |f|
    ensures n >= 2 ==> k <= n - 2
    ensures n < 2 ==> k == 0
  {
    if n <= 2 then 0 else FreeBelow(f, n - 1) + if f[n - 1] == 0 then 1 else 0
  }

  ghost function FreeCount(f: seq<nat>): nat { FreeBelow(f, |f|) }

  lemma {:induction false} FreeBelowSet(f: seq<nat>, c: nat, v: nat, n: nat)
    requires 2 <= c < |f| && n <= |f|
    ensures FreeBelow(f[c := v], n)
         == FreeBelow(f, n) + if c < n then (if v == 0 then 1 else 0) - (if f[c] == 0 then 1 else 0) else 0
  {
    if n > 2 { FreeBelowSet(f, c, v, n - 1); }
  }

  lemma {:induction false} FreeBelowZero(f: seq<nat>, n: nat)
    requires n <= |f|
    ensures FreeBelow(f, n) == 0 <==> forall c :: 2 <= c < n ==> f[c] != 0
  {
    if n > 2 { FreeBelowZero(f, n - 1); }
  }

  ghost predicate NoneFree(f: seq<nat>) {
    forall c :: 2 <= c < |f| ==> f[c] != 0
  }

  /** The cached count of free clusters is unknown or exact. */
  ghost predicate CountOk(f: seq<nat>, freeClst: nat) {
    |f| >= 2 && (freeClst <= |f| - 2 ==> freeClst == FreeCount(f))
  }

  /** free_clst after n clusters are freed: an unknown count stays, a known one does not pass the
      number of clusters. */
  function CountAfterFreeing(free: dword, n: nat, nFatent: nat): (r: dword)
    requires 2 <= nFatent <= DWORD_MAX
  {
    if free >= nFatent - 2 then free else if free + n <= nFatent - 2 then free + n else nFatent - 2
  }

  lemma CountOneMore(free: dword, n: nat, nFatent: nat)
    requires 2 <= nFatent <= DWORD_MAX
    ensures CountAfterFreeing(CountAfterFreeing(free, n, nFatent), 1, nFatent) ==
              CountAfterFreeing(free, n + 1, nFatent)
  {
  }

  lemma FreeingCounts(f: seq<nat>, f': seq<nat>, free: dword, n: nat)
    requires CountOk(f, free) && |f'| == |f| <= DWORD_MAX && FreeCount(f') == FreeCount(f) + n
    ensures CountOk(f', CountAfterFreeing(free, n, |f|))
  {
  }

  /** The free count after an allocation. */
  function CountAfterTaking(free: nat, nFatent: nat): nat {
    if free <= nFatent - 2 && free > 0 then free - 1 else free
  }

  lemma TakingCounts(f: seq<nat>, f': seq<nat>, free: nat)
    requires CountOk(f, free) && |f'| == |f| && FreeCount(f') == FreeCount(f) - 1
    ensures CountOk(f', CountAfterTaking(free, |f|))
  {
  }

  // ---------------------------------------------------------------- removal

  /** What following a chain and freeing it does, on any FAT: the new FAT, the clusters freed, and
      whether an entry of 1 stopped it. Each step frees a used cluster, so cycles end too. */
  ghost function Unlink(f: seq<nat>, c: nat): (r: (seq<nat>, nat, FResult))
    requires 2 <= c < |f|
    ensures |r.0| == |f|
    decreases |f| - FreeCount(f)
  {
    FreeBelowSet(f, c, 0, |f|);
    if f[c] == 0 then (f, 0, OK)
    else if f[c] == 1 then (f, 0, INT_ERR)
    else if f[c] >= |f| then (f[c := 0], 1, OK)
    else var u := Unlink(f[c := 0], f[c]); (u.0, u.1 + 1, u.2)
  }

  /** Every cluster of s freed. */
  ghost function Zeroed(f: seq<nat>, s: seq<nat>): (z: seq<nat>)
    ensures |z| == |f|
  {
    seq(|f|, c requires 0 <= c < |f| => if c in s then 0 else f[c])
  }

  /** On a chain, removal frees exactly its clusters. */
  lemma {:induction false} UnlinkChain(f: seq<nat>, s: seq<nat>)
    requires IsChain(f, s)
    ensures Unlink(f, s[0]) == (Zeroed(f, s), |s|, OK)
    decreases |s|
  {
    var g := f[s[0] := 0];
    if |s| == 1 {
      assert g == Zeroed(f, s);
    } else {
      ChainNoRepeat(f, s);
      var t := s[1..];
      assert IsChain(g, t);
      UnlinkChain(g, t);
      assert Zeroed(g, t) == Zeroed(f, s);
    }
  }

  lemma {:induction false} UnlinkCounts(f: seq<nat>, c: nat)
    requires 2 <= c < |f|
    ensures FreeCount(Unlink(f, c).0) == FreeCount(f) + Unlink(f, c).1
    decreases |f| - FreeCount(f)
  {
    FreeBelowSet(f, c, 0, |f|);
    if f[c] > 1 && f[c] < |f| { UnlinkCounts(f[c := 0], f[c]); }
  }

  // ---------------------------------------------------------------- what changes keep

  /** A chain none of whose entries changed is still a chain. */
  lemma ChainKept(f: seq<nat>, g: seq<nat>, t: seq<nat>)
    requires IsChain(f, t) && |g| == |f|
    requires forall i :: 0 <= i < |t| ==> g[t[i]] == f[t[i]]
    ensures IsChain(g, t)
  {
  }

  lemma ChainUsed(f: seq<nat>, t: seq<nat>)
    requires IsChain(f, t)
    ensures forall i :: 0 <= i < |t| ==> f[t[i]] >= 2
  {
    forall i | 0 <= i < |t| ensures f[t[i]] >= 2 { ChainNext(f, t, i); }
  }

  lemma ChainTail(f: seq<nat>, t: seq<nat>, i: nat)
    requires IsChain(f, t) && i < |t|
    ensures IsChain(f, t[i..])
  {
  }

  /** The chains of a forest that do not meet at their heads do not meet at all. */
  lemma {:induction false} HeadsApart(f: seq<nat>, s: seq<nat>, t: seq<nat>, i: nat, j: nat)
    requires NoSharedLink(f) && IsChain(f, s) && IsChain(f, t) && i < |s| && j < |t|
    requires forall k :: 0 <= k < |t| ==> t[k] != s[0]
    requires Unlinked(f, t[0])
    ensures s[i] != t[j]
    decreases i
  {
    if s[i] == t[j] {
      if i > 0 {
        ChainNext(f, s, i - 1);
        if j > 0 {
          ChainNext(f, t, j - 1);
          HeadsApart(f, s, t, i - 1, j - 1);
        }
      }
    }
  }

  // ---- marking an end, which cuts a chain

  lemma CutChain(f: seq<nat>, s: seq<nat>, i: nat, e: nat)
    requires IsChain(f, s) && i < |s| && e >= |f|
    ensures IsChain(f[s[i] := e], s[..i + 1])
    ensures i + 1 < |s| ==> IsChain(f[s[i] := e], s[i + 1..])
  {
    ChainNoRepeat(f, s);
    var g := f[s[i] := e];
    forall k | 0 <= k < i ensures g[s[k]] == s[k + 1] { ChainNext(f, s, k); }
    if i + 1 < |s| {
      ChainTail(f, s, i + 1);
      ChainKept(f, g, s[i + 1..]);
    }
  }

  lemma CutReaches(f: seq<nat>, p: nat, e: nat, c: nat)
    requires Reaches(f, c) && p < |f| && e >= |f|
    ensures Reaches(f[p := e], c)
  {
    var s :| IsChain(f, s) && s[0] == c;
    if k :| 0 <= k < |s| && s[k] == p {
      CutChain(f, s, k, e);
      assert s[..k + 1][0] == c;
    } else {
      ChainKept(f, f[p := e], s);
    }
  }

  lemma CutForest(f: seq<nat>, p: nat, e: nat)
    requires Forest(f) && 2 <= p < |f| && f[p] != 0 && e >= |f|
    ensures Forest(f[p := e])
    ensures 2 <= f[p] < |f| ==> Unlinked(f[p := e], f[p])
  {
    var g := f[p := e];
    forall c | 2 <= c < |g| && g[c] != 0 ensures Reaches(g, c) { CutReaches(f, p, e, c); }
  }

  // ---- freeing a chain nothing links to

  lemma FreeReaches(f: seq<nat>, t: seq<nat>, c: nat)
    requires NoSharedLink(f) && IsChain(f, t) && Unlinked(f, t[0]) && Reaches(f, c) && c !in t
    ensures Reaches(Zeroed(f, t), c)
  {
    var s :| IsChain(f, s) && s[0] == c;
    forall i | 0 <= i < |s| ensures s[i] !in t {
      if s[i] in t {
        var j :| 0 <= j < |t| && t[j] == s[i];
        HeadsApart(f, s, t, i, j);
        assert false;
      }
    }
    ChainKept(f, Zeroed(f, t), s);
  }

  lemma FreeForest(f: seq<nat>, t: seq<nat>)
    requires Forest(f) && IsChain(f, t) && Unlinked(f, t[0])
    ensures Forest(Zeroed(f, t))
  {
    var g := Zeroed(f, t);
    forall c | 2 <= c < |g| && g[c] != 0 ensures Reaches(g, c) { FreeReaches(f, t, c); }
    forall a, b | 2 <= a < |g| && 2 <= b < |g| && a != b && g[a] == g[b] ensures g[a] < 2 || g[a] >= |g| {
      if g[a] >= 2 { assert g[a] == f[a] && g[b] == f[b]; }
    }
  }

  // ---- taking a free cluster

  /** Nothing links to a free cluster. */
  lemma FreeUnlinked(f: seq<nat>, c: nat)
    requires Forest(f) && 2 <= c < |f| && f[c] == 0
    ensures Unlinked(f, c)
  {
    forall a | 2 <= a < |f| ensures f[a] != c {
      if f[a] == c {
        assert Reaches(f, a);
        var s :| IsChain(f, s) && s[0] == a;
        ChainNext(f, s, 0);
        ChainUsed(f, s);
        assert false;
      }
    }
  }

  lemma ClaimKeeps(f: seq<nat>, c: nat, e: nat, t: seq<nat>)
    requires IsChain(f, t) && c < |f| && f[c] == 0
    ensures c !in t && IsChain(f[c := e], t)
  {
    ChainUsed(f, t);
    ChainKept(f, f[c := e], t);
  }

  lemma ClaimReaches(f: seq<nat>, c: nat, e: nat, a: nat)
    requires 2 <= c < |f| && f[c] == 0 && e >= |f| && (a == c || Reaches(f, a))
    ensures Reaches(f[c := e], a)
  {
    if a == c {
      assert IsChain(f[c := e], [c]) && [c][0] == a;
    } else {
      var s :| IsChain(f, s) && s[0] == a;
      ClaimKeeps(f, c, e, s);
    }
  }

  /** A free cluster marked as an end is a chain of its own. */
  lemma ClaimForest(f: seq<nat>, c: nat, e: nat)
    requires Forest(f) && 2 <= c < |f| && f[c] == 0 && e >= |f|
    ensures Forest(f[c := e]) && IsChain(f[c := e], [c]) && Unlinked(f[c := e], c)
  {
    var g := f[c := e];
    FreeUnlinked(f, c);
    forall a | 2 <= a < |g| && g[a] != 0 ensures Reaches(g, a) { ClaimReaches(f, c, e, a); }
    assert NoSharedLink(g);
  }

  /** Linking the end of one chain to the head of another joins them. */
  lemma JoinChains(f: seq<nat>, s: seq<nat>, t: seq<nat>)
    requires IsChain(f, s) && IsChain(f, t) && s[|s| - 1] !in t
    ensures IsChain(f[s[|s| - 1] := t[0]], s + t)
  {
    ChainNoRepeat(f, s);
    var p := s[|s| - 1];
    var g := f[p := t[0]];
    var u := s + t;
    forall i | 0 <= i < |u| - 1 ensures g[u[i]] == u[i + 1] {
      if i < |s| - 1 { ChainNext(f, s, i); }
      else if i >= |s| { ChainNext(f, t, i - |s|); assert u[i] == t[i - |s|]; }
    }
    assert u[|u| - 1] == t[|t| - 1];
  }

  lemma LinkReaches(f: seq<nat>, p: nat, c: nat, a: nat)
    requires Reaches(f, a) && 2 <= p < |f| && f[p] >= |f| && IsChain(f, [c]) && c != p
    ensures Reaches(f[p := c], a)
  {
    var s :| IsChain(f, s) && s[0] == a;
    if k :| 0 <= k < |s| && s[k] == p {
      ChainNext(f, s, k);
      JoinChains(f, s, [c]);
      assert (s + [c])[0] == a;
    } else {
      ChainKept(f, f[p := c], s);
    }
  }

  lemma LinkForest(f: seq<nat>, p: nat, c: nat)
    requires Forest(f) && 2 <= p < |f| && f[p] >= |f| && IsChain(f, [c]) && c != p && Unlinked(f, c)
    ensures Forest(f[p := c])
  {
    var g := f[p := c];
    forall a | 2 <= a < |g| && g[a] != 0 ensures Reaches(g, a) { LinkReaches(f, p, c, a); }
  }

  // ---------------------------------------------------------------- the three changes of a FAT

  /** What stretching chain s by the free cluster c does to a forest. */
  lemma Stretched(f: seq<nat>, s: seq<nat>, c: nat, e: nat)
    requires Forest(f) && IsChain(f, s) && 2 <= c < |f| && f[c] == 0 && e >= |f|
    ensures var g := f[c := e][s[|s| - 1] := c];
            Forest(g) && IsChain(g, s + [c]) && c !in s
            && FreeCount(g) == FreeCount(f) - 1
            && (Unlinked(f, s[0]) ==> Unlinked(g, s[0]))
            && forall t :: IsChain(f, t) && Apart(s, t) ==> IsChain(g, t) && Apart(s + [c], t)
  {
    var h, p := f[c := e], s[|s| - 1];
    ClaimKeeps(f, c, e, s);
    ClaimForest(f, c, e);
    LinkForest(h, p, c);
    JoinChains(h, s, [c]);
    FreeBelowSet(f, c, e, |f|);
    FreeBelowSet(h, p, c, |f|);
    forall t | IsChain(f, t) && Apart(s, t) ensures IsChain(h[p := c], t) && Apart(s + [c], t) {
      ClaimKeeps(f, c, e, t);
      ChainKept(h, h[p := c], t);
    }
  }

  /** What starting a new chain at the free cluster c does. */
  lemma Claimed(f: seq<nat>, c: nat, e: nat)
    requires Forest(f) && 2 <= c < |f| && f[c] == 0 && e >= |f|
    ensures var g := f[c := e];
            Forest(g) && IsChain(g, [c]) && Unlinked(g, c) && FreeCount(g) == FreeCount(f) - 1
            && forall t :: IsChain(f, t) ==> IsChain(g, t) && Apart([c], t)
  {
    ClaimForest(f, c, e);
    FreeBelowSet(f, c, e, |f|);
    forall t | IsChain(f, t) ensures IsChain(f[c := e], t) && Apart([c], t) { ClaimKeeps(f, c, e, t); }
  }

  /** Freeing a whole chain that nothing links to. */
  lemma Freed(f: seq<nat>, s: seq<nat>)
    requires Forest(f) && IsChain(f, s) && Unlinked(f, s[0])
    ensures var g := Zeroed(f, s);
            Unlink(f, s[0]) == (g, |s|, OK) && Forest(g) && FreeCount(g) == FreeCount(f) + |s|
            && forall t :: IsChain(f, t) && Apart(s, t) ==> IsChain(g, t)
  {
    UnlinkChain(f, s);
    UnlinkCounts(f, s[0]);
    FreeForest(f, s);
    forall t | IsChain(f, t) && Apart(s, t) ensures IsChain(Zeroed(f, s), t) {
      assert forall i :: 0 <= i < |t| ==> t[i] !in s;
      ChainKept(f, Zeroed(f, s), t);
    }
  }

  /** Ending chain s before position i splits it in two. */
  lemma Split(f: seq<nat>, s: seq<nat>, i: nat, e: nat)
    requires Forest(f) && IsChain(f, s) && 0 < i < |s| && e >= |f|
    ensures var h := f[s[i - 1] := e];
            Forest(h) && IsChain(h, s[..i]) && IsChain(h, s[i..]) && Unlinked(h, s[i]) && Apart(s[i..], s[..i])
            && FreeCount(h) == FreeCount(f) && (Unlinked(f, s[0]) ==> Unlinked(h, s[0]))
            && forall t :: IsChain(f, t) && Apart(s, t) ==> IsChain(h, t) && Apart(s[i..], t)
  {
    var p := s[i - 1];
    ChainNext(f, s, i - 1);
    CutChain(f, s, i - 1, e);
    CutForest(f, p, e);
    FreeBelowSet(f, p, e, |f|);
    ChainNoRepeat(f, s);
    forall t | IsChain(f, t) && Apart(s, t)
      ensures IsChain(f[p := e], t) && Apart(s[i..], t)
    {
      CutApart(f, s, i, e, t);
    }
  }

  /** Cutting chain s before position i: exactly the clusters from there on are freed, and the
      clusters before are the whole chain. */
  lemma Truncated(f: seq<nat>, s: seq<nat>, i: nat, e: nat)
    requires Forest(f) && IsChain(f, s) && 0 < i < |s| && e >= |f|
    ensures var h := f[s[i - 1] := e];
            var g := Zeroed(h, s[i..]);
            Unlink(h, s[i]) == (g, |s| - i, OK) && Forest(g) && IsChain(g, s[..i])
            && FreeCount(g) == FreeCount(f) + |s| - i
            && (Unlinked(f, s[0]) ==> Unlinked(g, s[0]))
            && forall t :: IsChain(f, t) && Apart(s, t) ==> IsChain(g, t)
  {
    Split(f, s, i, e);
    Freed(f[s[i - 1] := e], s[i..]);
  }

  lemma CutApart(f: seq<nat>, s: seq<nat>, i: nat, e: nat, t: seq<nat>)
    requires IsChain(f, t) && Apart(s, t) && 0 < i < |s| && s[i - 1] < |f|
    ensures IsChain(f[s[i - 1] := e], t) && Apart(s[i..], t)
  {
    ChainKept(f, f[s[i - 1] := e], t);
  }
}
