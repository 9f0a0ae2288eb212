/** The ring of buffer descriptors two protection domains share: one enqueues, the other dequeues. */
module Ring {
  import opened Bytes

  const SLOTS: nat := 512

  datatype Desc = Desc(addr: nat, len: dword, cookie: nat)

  /** Number of descriptors between the indices, which wrap at 32 bits. */
  function Occupied(w: dword, r: dword): (n: dword) { Sub32(w, r) }

  /** The index after i. */
  function Succ(i: dword): dword { (i + 1) % 0x1_0000_0000 }

  function SlotOf(i: nat): (k: nat)
    ensures k < SLOTS
  {
    i % 512
  }

  predicate RingEmpty(w: dword, r: dword) { Occupied(w, r) % 512 == 0 }

  predicate RingFull(w: dword, r: dword) { Succ(Occupied(w, r)) % 512 == 0 }

  /** The descriptors between the indices, oldest first. */
  ghost function Waiting(slots: seq<Desc>, w: dword, r: dword): (q: seq<Desc>)
    requires |slots| == SLOTS
    ensures |q| == Occupied(w, r)
  {
    seq(Occupied(w, r), i requires 0 <= i < Occupied(w, r) => slots[SlotOf(r + i)])
  }

  lemma WaitingMore(slots: seq<Desc>, w: dword, r: dword, d: Desc)
    requires |slots| == SLOTS && Occupied(w, r) < SLOTS - 1
    ensures Waiting(slots[SlotOf(w) := d], Succ(w), r) == Waiting(slots, w, r) + [d]
  {
    var n := Occupied(w, r);
    assert Occupied(Succ(w), r) == n + 1;
    var a, b := Waiting(slots[SlotOf(w) := d], Succ(w), r), Waiting(slots, w, r) + [d];
    WrapKeepsSlot(r + n);
    assert SlotOf(w) == SlotOf(r + n);
    forall i: nat | i < n + 1 ensures a[i] == b[i] {
      if i < n { Apart512(r + i, r + n); }
    }
  }

  lemma WaitingLess(slots: seq<Desc>, w: dword, r: dword)
    requires |slots| == SLOTS && 0 < Occupied(w, r) < SLOTS
    ensures Waiting(slots, w, r)[0] == slots[SlotOf(r)]
    ensures Waiting(slots, w, Succ(r)) == Waiting(slots, w, r)[1..]
  {
    var n := Occupied(w, r);
    var a, b := Waiting(slots, w, Succ(r)), Waiting(slots, w, r)[1..];
    forall i: nat | i < n - 1 ensures a[i] == b[i] {
      WrapKeepsSlot(r + 1);
      SlotShift(Succ(r), r + 1, i);
    }
  }

  /** The ring_buffer_t, used by one domain at a time. */
  class RingBuffer {
    var writeIdx: dword
    var readIdx: dword
    const buffers: array<Desc>

    ghost predicate Valid()
      reads this
    {
      buffers.Length == SLOTS && Occupied(writeIdx, readIdx) < SLOTS
    }

    /** The descriptors enqueued and not yet dequeued, oldest first. */
    ghost function Contents(): (q: seq<Desc>)
      requires Valid()
      reads this, buffers
    {
      Waiting(buffers[..], writeIdx, readIdx)
    }

    /** Both indices start out equal; ring_init sets them to 0. */
    constructor (start: dword, d: Desc)
      ensures Valid() && fresh(buffers) && Contents() == [] && writeIdx == readIdx == start
    {
      writeIdx, readIdx := start, start;
      buffers := new Desc[SLOTS](i => d);
    }

    /** enqueue: false when 511 descriptors are waiting. */
    method Enqueue(d: Desc) returns (ok: bool)
      requires Valid()
      modifies this`writeIdx, buffers
      ensures Valid() && ok == (|old(Contents())| < SLOTS - 1)
      ensures Contents() == if ok then old(Contents()) + [d] else old(Contents())
    {
      if RingFull(writeIdx, readIdx) { return false; }
      WaitingMore(buffers[..], writeIdx, readIdx, d);
      var k := SlotOf(writeIdx);
      buffers[k] := buffers[k].(addr := d.addr);
      buffers[k] := buffers[k].(len := d.len);
      buffers[k] := buffers[k].(cookie := d.cookie);
      assert buffers[..] == old(buffers[..])[k := d];
      writeIdx := Succ(writeIdx);
      return true;
    }

    /** dequeue: the oldest descriptor, none when the ring is empty. */
    method Dequeue() returns (ok: bool, d: Desc)
      requires Valid()
      modifies this`readIdx
      ensures Valid() && ok == (|old(Contents())| > 0)
      ensures ok ==> d == old(Contents())[0] && Contents() == old(Contents())[1..]
      ensures !ok ==> Contents() == old(Contents())
    {
      d := Desc(0, 0, 0);
      if RingEmpty(writeIdx, readIdx) { return false, d; }
      WaitingLess(buffers[..], writeIdx, readIdx);
      d := buffers[SlotOf(readIdx)];
      readIdx := Succ(readIdx);
      return true, d;
    }

    /** driver_dequeue: like dequeue, but the cookie is the slot the descriptor is in. */
    method DriverDequeue() returns (ok: bool, addr: nat, len: dword, slot: nat)
      requires Valid()
      modifies this`readIdx
      ensures Valid() && ok == (|old(Contents())| > 0)
      ensures ok ==>
                slot < SLOTS && buffers[slot] == old(Contents())[0] && addr == buffers[slot].addr
                && len == buffers[slot].len
      ensures Contents() == if ok then old(Contents())[1..] else old(Contents())
    {
      addr, len, slot := 0, 0, 0;
      if RingEmpty(writeIdx, readIdx) { return false, addr, len, slot; }
      WaitingLess(buffers[..], writeIdx, readIdx);
      slot := SlotOf(readIdx);
      addr, len := buffers[slot].addr, buffers[slot].len;
      readIdx := Succ(readIdx);
      return true, addr, len, slot;
    }
  }

  lemma Apart512(a: nat, b: nat)
    requires a < b < a + 512
    ensures SlotOf(a) != SlotOf(b)
  {
  }

  lemma SlotShift(a: nat, b: nat, i: nat)
    requires SlotOf(a) == SlotOf(b)
    ensures SlotOf(a + i) == SlotOf(b + i)
  {
    var x, y := a / 512, b / 512;
    assert a + i == 512 * x + (a % 512 + i) && b + i == 512 * y + (a % 512 + i);
    ModShift(x, a % 512 + i);
    ModShift(y, a % 512 + i);
  }

  lemma ModShift(x: nat, r: nat)
    ensures (512 * x + r) % 512 == r % 512
  {
  }

  lemma WrapKeepsSlot(n: nat)
    ensures SlotOf(n % 0x1_0000_0000) == SlotOf(n)
  {
  }

  // ---------------------------------------------------------------- both domains at once

  /** Where the producer is in enqueue. Its own index only it changes, so what it reads of shared memory
      is the other index. */
  datatype Producer =
    | PIdle
    | PSeen(d: Desc, r: dword)    // has read read_idx
    | PRoom(d: Desc)              // found the ring not full
    | PAddr(d: Desc)              // has stored the address
    | PLen(d: Desc)               // and the length
    | PStored(d: Desc)            // and the cookie
    | PLoaded(d: Desc, w: dword)  // has loaded write_idx to increment it

  /** Where the consumer is in dequeue. */
  datatype Consumer =
    | CIdle
    | CSeen(w: dword)             // has read write_idx
    | CWaiting                    // found the ring not empty
    | CAddr(addr: nat)            // has read the address
    | CLen(addr: nat, len: dword) // and the length
    | CRead(d: Desc)              // and the cookie
    | CLoaded(d: Desc, r: dword)  // has loaded read_idx to increment it

  /** Shared memory, the two program counters, and what was handed over so far: all descriptors
      enqueued and all dequeued. */
  datatype Shared = Shared(writeIdx: dword, readIdx: dword, slots: seq<Desc>, p: Producer, c: Consumer,
                           sent: seq<Desc>, taken: seq<Desc>)

  /** One access of the producer to shared memory, or its test; d is the next descriptor to enqueue. */
  function Produce(s: Shared, d: Desc): Shared
    requires |s.slots| == SLOTS
  {
    var k := SlotOf(s.writeIdx);
    match s.p
    case PIdle => s.(p := PSeen(d, s.readIdx))
    case PSeen(e, r) => s.(p := if RingFull(s.writeIdx, r) then PIdle else PRoom(e))
    case PRoom(e) => s.(slots := s.slots[k := s.slots[k].(addr := e.addr)], p := PAddr(e))
    case PAddr(e) => s.(slots := s.slots[k := s.slots[k].(len := e.len)], p := PLen(e))
    case PLen(e) => s.(slots := s.slots[k := s.slots[k].(cookie := e.cookie)], p := PStored(e))
    case PStored(e) => s.(p := PLoaded(e, s.writeIdx))
    case PLoaded(e, w) => s.(writeIdx := Succ(w), p := PIdle, sent := s.sent + [e])
  }

  /** One access of the consumer. */
  function Consume(s: Shared): Shared
    requires |s.slots| == SLOTS
  {
    var slot := s.slots[SlotOf(s.readIdx)];
    match s.c
    case CIdle => s.(c := CSeen(s.writeIdx))
    case CSeen(w) => s.(c := if RingEmpty(w, s.readIdx) then CIdle else CWaiting)
    case CWaiting => s.(c := CAddr(slot.addr))
    case CAddr(a) => s.(c := CLen(a, slot.len))
    case CLen(a, n) => s.(c := CRead(Desc(a, n, slot.cookie)))
    case CRead(d) => s.(c := CLoaded(d, s.readIdx))
    case CLoaded(d, r) => s.(readIdx := Succ(r), c := CIdle, taken := s.taken + [d])
  }

  /** Whose turn it is. */
  datatype Turn = Producing(d: Desc) | Consuming

  function Step(s: Shared, t: Turn): (s': Shared)
    requires |s.slots| == SLOTS
    ensures |s'.slots| == SLOTS
  {
    match t case Producing(d) => Produce(s, d) case Consuming => Consume(s)
  }

  function Run(s: Shared, ts: seq<Turn>): (s': Shared)
    requires |s.slots| == SLOTS
    ensures |s'.slots| == SLOTS
  {
    if ts == [] then s else Step(Run(s, ts[..|ts| - 1]), ts[|ts| - 1])
  }

  predicate Initial(s: Shared) {
    s.writeIdx == s.readIdx && |s.slots| == SLOTS && s.p == PIdle && s.c == CIdle && s.sent == s.taken == []
  }

  // ---------------------------------------------------------------- what every step keeps

  /** Index of the n-th descriptor, when the indices started at base. */
  function IndexOf(base: dword, n: nat): dword { (base + n) % 0x1_0000_0000 }

  /** Descriptor n of all sent is in its slot. */
  predicate InSlot(slots: seq<Desc>, sent: seq<Desc>, base: dword, n: nat)
    requires |slots| == SLOTS && n < |sent|
  {
    slots[SlotOf(base + n)] == sent[n]
  }

  /** The last 511 sent are. */
  ghost predicate InSlots(slots: seq<Desc>, sent: seq<Desc>, base: dword)
    requires |slots| == SLOTS
  {
    forall n :: 0 <= n < |sent| && n + SLOTS > |sent| ==> InSlot(slots, sent, base, n)
  }

  /** Past the test, the producer has room; what it has stored of the descriptor so far is in the slot. */
  predicate ProducerOk(s: Shared, base: dword)
    requires |s.slots| == SLOTS && |s.taken| <= |s.sent|
  {
    var n := |s.sent|;
    var slot := s.slots[SlotOf(base + n)];
    var room := n - |s.taken| < SLOTS - 1;
    match s.p
    case PIdle => true
    case PSeen(_, r) => exists m :: 0 <= m <= |s.taken| && n - m < SLOTS && r == IndexOf(base, m)
    case PRoom(_) => room
    case PAddr(d) => room && slot.addr == d.addr
    case PLen(d) => room && slot.addr == d.addr && slot.len == d.len
    case PStored(d) => room && slot == d
    case PLoaded(d, w) => room && slot == d && w == s.writeIdx
  }

  /** Past the test, there is a descriptor for the consumer; what it has read of it is right. */
  predicate ConsumerOk(s: Shared, base: dword)
    requires |s.slots| == SLOTS && |s.taken| <= |s.sent|
  {
    var m := |s.taken|;
    var some := m < |s.sent|;
    match s.c
    case CIdle => true
    case CSeen(w) => exists n :: m <= n <= |s.sent| && n - m < SLOTS && w == IndexOf(base, n)
    case CWaiting => some
    case CAddr(a) => some && a == s.sent[m].addr
    case CLen(a, l) => some && a == s.sent[m].addr && l == s.sent[m].len
    case CRead(d) => some && d == s.sent[m]
    case CLoaded(d, r) => some && d == s.sent[m] && r == s.readIdx
  }

  /** What is dequeued is a prefix of what was enqueued, at most 511 are in between, and the last 511
      enqueued, dequeued or not, are in their slots. */
  ghost predicate Inv(s: Shared, base: dword) {
    && |s.slots| == SLOTS
    && s.writeIdx == IndexOf(base, |s.sent|) && s.readIdx == IndexOf(base, |s.taken|)
    && s.taken <= s.sent && |s.sent| - |s.taken| < SLOTS
    && InSlots(s.slots, s.sent, base)
    && ProducerOk(s, base) && ConsumerOk(s, base)
  }

  /** The tests say what they should: occupancies below 512 are told apart modulo 512. */
  lemma Tests(base: dword, n: nat, m: nat)
    requires m <= n < m + SLOTS
    ensures Occupied(IndexOf(base, n), IndexOf(base, m)) == n - m
    ensures RingFull(IndexOf(base, n), IndexOf(base, m)) <==> n - m == SLOTS - 1
    ensures RingEmpty(IndexOf(base, n), IndexOf(base, m)) <==> n == m
  {
    Wraps(base, n, m);
  }

  lemma Wraps(base: dword, n: nat, m: nat)
    requires m <= n < m + SLOTS
    ensures Sub32(IndexOf(base, n), IndexOf(base, m)) == n - m
  {
    var a, b := base + n, base + m;
    var p, q := a / 0x1_0000_0000, b / 0x1_0000_0000;
    assert a == 0x1_0000_0000 * p + IndexOf(base, n) && b == 0x1_0000_0000 * q + IndexOf(base, m);
    assert p == q || p == q + 1;
  }

  /** Changing the slot of the next descriptor touches none of those in their slots. */
  lemma OthersInSlot(slots: seq<Desc>, sent: seq<Desc>, base: dword, e: Desc)
    requires |slots| == SLOTS && InSlots(slots, sent, base)
    ensures SlotOf(IndexOf(base, |sent|)) == SlotOf(base + |sent|)
    ensures InSlots(slots[SlotOf(base + |sent|) := e], sent, base)
  {
    WrapKeepsSlot(base + |sent|);
    var slots' := slots[SlotOf(base + |sent|) := e];
    forall i | 0 <= i < |sent| && i + SLOTS > |sent| ensures InSlot(slots', sent, base, i) {
      assert InSlot(slots, sent, base, i);
      Apart512(base + i, base + |sent|);
    }
  }

  lemma ProduceKeeps(s: Shared, base: dword, d: Desc)
    requires Inv(s, base)
    ensures Inv(Produce(s, d), base)
  {
    var k := SlotOf(s.writeIdx);
    match s.p {
      case PIdle => assert s.readIdx == IndexOf(base, |s.taken|);
      case PSeen(e, r) => if !RingFull(s.writeIdx, r) { RoomSeen(s, base, e, r); }
      case PRoom(e) => OthersInSlot(s.slots, s.sent, base, s.slots[k].(addr := e.addr));
      case PAddr(e) => OthersInSlot(s.slots, s.sent, base, s.slots[k].(len := e.len));
      case PLen(e) => OthersInSlot(s.slots, s.sent, base, s.slots[k].(cookie := e.cookie));
      case PStored(_) =>
      case PLoaded(e, w) => SendKeeps(s, base, e, w);
    }
  }

  lemma RoomSeen(s: Shared, base: dword, e: Desc, r: dword)
    requires Inv(s, base) && s.p == PSeen(e, r) && !RingFull(s.writeIdx, r)
    ensures |s.sent| - |s.taken| < SLOTS - 1
  {
    var m :| 0 <= m <= |s.taken| && |s.sent| - m < SLOTS && r == IndexOf(base, m);
    Tests(base, |s.sent|, m);
  }

  lemma SendKeeps(s: Shared, base: dword, e: Desc, w: dword)
    requires Inv(s, base) && s.p == PLoaded(e, w)
    ensures Inv(s.(writeIdx := Succ(w), p := PIdle, sent := s.sent + [e]), base)
  {
    var sent, n := s.sent + [e], |s.sent|;
    forall i | 0 <= i < n + 1 && i + SLOTS > n + 1 ensures InSlot(s.slots, sent, base, i) {
      if i < n { assert InSlot(s.slots, s.sent, base, i); }
    }
    NextIndex(base, n);
    if s.c.CSeen? {
      var k :| |s.taken| <= k <= n && k - |s.taken| < SLOTS && s.c.w == IndexOf(base, k);
      assert k <= n + 1;
    }
  }

  lemma NextIndex(base: dword, n: nat)
    ensures Succ(IndexOf(base, n)) == IndexOf(base, n + 1)
  {
  }

  lemma ConsumeKeeps(s: Shared, base: dword)
    requires Inv(s, base)
    ensures Inv(Consume(s), base)
  {
    var m := |s.taken|;
    WrapKeepsSlot(base + m);
    if m < |s.sent| { assert InSlot(s.slots, s.sent, base, m); }
    match s.c {
      case CIdle => assert s.writeIdx == IndexOf(base, |s.sent|);
      case CSeen(w) => if !RingEmpty(w, s.readIdx) { SomeSeen(s, base, w); }
      case CLoaded(d, r) => NextIndex(base, m);
      case _ =>
    }
  }

  lemma SomeSeen(s: Shared, base: dword, w: dword)
    requires Inv(s, base) && s.c == CSeen(w) && !RingEmpty(w, s.readIdx)
    ensures |s.taken| < |s.sent|
  {
    var n :| |s.taken| <= n <= |s.sent| && n - |s.taken| < SLOTS && w == IndexOf(base, n);
    Tests(base, n, |s.taken|);
  }

  // ---------------------------------------------------------------- every interleaving

  lemma {:induction false} RunKeeps(s: Shared, ts: seq<Turn>)
    requires Initial(s)
    ensures Inv(Run(s, ts), s.writeIdx)
  {
    if ts != [] {
      var k := |ts| - 1;
      RunKeeps(s, ts[..k]);
      match ts[k] {
        case Producing(d) => ProduceKeeps(Run(s, ts[..k]), s.writeIdx, d);
        case Consuming => ConsumeKeeps(Run(s, ts[..k]), s.writeIdx);
      }
    } else {
      assert IndexOf(s.writeIdx, 0) == s.writeIdx;
    }
  }

  /** Under every interleaving, from any start of the indices: first in, first out, nothing lost or made
      up, never more than 511 waiting, and the indices tell how many. */
  lemma FirstInFirstOut(s: Shared, ts: seq<Turn>)
    requires Initial(s)
    ensures var t := Run(s, ts);
            t.taken <= t.sent && |t.sent| - |t.taken| == Occupied(t.writeIdx, t.readIdx) <= SLOTS - 1
            && t.sent == t.taken + Waiting(t.slots, t.writeIdx, t.readIdx)
  {
    RunKeeps(s, ts);
    var t, base := Run(s, ts), s.writeIdx;
    var n, m := |t.sent|, |t.taken|;
    Tests(base, n, m);
    WaitingIs(t, base);
  }

  lemma WaitingIs(t: Shared, base: dword)
    requires Inv(t, base) && Occupied(t.writeIdx, t.readIdx) == |t.sent| - |t.taken|
    ensures Waiting(t.slots, t.writeIdx, t.readIdx) == t.sent[|t.taken|..]
  {
    var m := |t.taken|;
    var a, b := Waiting(t.slots, t.writeIdx, t.readIdx), t.sent[m..];
    forall i: nat | i < |b| ensures a[i] == b[i] {
      assert InSlot(t.slots, t.sent, base, m + i);
      SlotWraps(base, m, i);
    }
  }

  lemma SlotWraps(base: dword, m: nat, i: nat)
    ensures SlotOf(IndexOf(base, m) + i) == SlotOf(base + (m + i))
  {
    WrapKeepsSlot(base + m);
    SlotShift(IndexOf(base, m), base + m, i);
  }

  /** No step changes the slot of a descriptor that is waiting, nor of one dequeued fewer than 511
      enqueues ago, which is what a driver's cookie points to. */
  lemma SlotsStay(s: Shared, ts: seq<Turn>, t: Turn, n: nat)
    requires Initial(s)
    requires n < |Run(s, ts).sent| && (n >= |Run(s, ts).taken| || n + SLOTS > |Run(s, ts).sent|)
    ensures Step(Run(s, ts), t).slots[SlotOf(s.writeIdx + n)] == Run(s, ts).sent[n]
  {
    RunKeeps(s, ts);
    var u, base := Run(s, ts), s.writeIdx;
    assert InSlot(u.slots, u.sent, base, n);
    WrapKeepsSlot(base + |u.sent|);
    Apart512(base + n, base + |u.sent|);
  }

  /** The producer is refused exactly when 511 were waiting at the read index it saw, and the consumer
      exactly when none were at the write index it saw; both indices are ones the other side had. */
  lemma RefusedRightly(s: Shared, ts: seq<Turn>)
    requires Initial(s)
    ensures var t := Run(s, ts);
            (t.p.PSeen? ==> exists m :: 0 <= m <= |t.taken| && t.p.r == IndexOf(s.writeIdx, m)
                                        && (RingFull(t.writeIdx, t.p.r) <==> |t.sent| == m + SLOTS - 1))
            && (t.c.CSeen? ==> exists n :: |t.taken| <= n <= |t.sent| && t.c.w == IndexOf(s.writeIdx, n)
                                           && (RingEmpty(t.c.w, t.readIdx) <==> n == |t.taken|))
  {
    RunKeeps(s, ts);
    var t, base := Run(s, ts), s.writeIdx;
    if t.p.PSeen? {
      var m :| 0 <= m <= |t.taken| && |t.sent| - m < SLOTS && t.p.r == IndexOf(base, m);
      Tests(base, |t.sent|, m);
    }
    if t.c.CSeen? {
      var n :| |t.taken| <= n <= |t.sent| && n - |t.taken| < SLOTS && t.c.w == IndexOf(base, n);
      Tests(base, n, |t.taken|);
    }
  }
}
