// The NDP transmit queue: software pushes descriptors and packet buffers into rings that the
// hardware consumes at its own pace.
module TxRing {
  import opened Numbers

  // Slots of the descriptor ring, and packet buffers.
  const COUNT: nat := 256
  const MDP: nat := 255
  const PACKET_MAX: nat := 4096

  // A new upper address, or a packet: its buffer and length.
  datatype Desc = Upper(high: nat) | Packet(buffer: nat, length: nat)

  // ---------------------------------------------------------------- addresses

  function BufferAddr(queue: nat, i: nat): nat {
    queue * 2097152 + i * 4096
  }

  function SlotAddr(queue: nat, i: nat): nat {
    queue * 2097152 + 1048576 + i * 8
  }

  ghost predicate Apart(a: nat, an: nat, b: nat, bn: nat) {
    a + an <= b || b + bn <= a
  }

  // Buffers and descriptor slots of all queues occupy different memory.
  lemma BuffersApart(p: nat, i: nat, q: nat, j: nat)
    requires i < COUNT && j < COUNT && (p, i) != (q, j)
    ensures Apart(BufferAddr(p, i), PACKET_MAX, BufferAddr(q, j), PACKET_MAX)
  {
    if p == q {
    } else if p < q {
      assert p + 1 <= q;
    } else {
      assert q + 1 <= p;
    }
  }

  lemma SlotsApart(p: nat, i: nat, q: nat, j: nat)
    requires i < COUNT && j < COUNT
    ensures (p, i) != (q, j) ==> Apart(SlotAddr(p, i), 8, SlotAddr(q, j), 8)
    ensures Apart(BufferAddr(p, i), PACKET_MAX, SlotAddr(q, j), 8)
  {
    if p < q {
      assert p + 1 <= q;
    } else if q < p {
      assert q + 1 <= p;
    }
  }

  // Each queue owns 2 MiB: 256 buffers of 4 KiB in a row fill the first half, and 256
  // descriptors of 8 bytes in a row begin the second one.
  lemma AddressesAre(q: nat, i: nat)
    ensures BufferAddr(q + 1, 0) == BufferAddr(q, 0) + 2097152
    ensures BufferAddr(q, i + 1) == BufferAddr(q, i) + 4096
    ensures SlotAddr(q, 0) == BufferAddr(q, 0) + 1048576
    ensures SlotAddr(q, i + 1) == SlotAddr(q, i) + 8
  {
  }

  lemma FirstAddress()
    ensures BufferAddr(0, 0) == 0
  {
  }

  // ---------------------------------------------------------------- history

  // Everything pushed and sent so far, and how far the hardware got: descriptors it was told
  // about, consumed, and reported as consumed.
  datatype History = History(pushed: seq<Desc>, sent: seq<seq<byte>>, flushed: nat, consumed: nat, published: nat) {
    ghost predicate Valid() {
      && published <= consumed <= flushed <= |pushed|
      && |pushed| - published <= MDP
      && PacketsIn(pushed, |pushed|) == |sent|
    }

    // The slots of unconsumed descriptors hold what was pushed.
    ghost predicate SlotsHold(ring: seq<Desc>) {
      && |ring| == COUNT
      && forall i :: consumed <= i < |pushed| ==> ring[i % COUNT] == pushed[i]
    }

    // The buffers of unconsumed packets hold what was sent.
    ghost predicate BuffersHold(buffers: seq<seq<byte>>) {
      && |buffers| == COUNT
      && (forall b :: 0 <= b < COUNT ==> |buffers[b]| == PACKET_MAX)
      && forall i :: consumed <= i < |pushed| && pushed[i].Packet? ==> PacketAt(buffers, i)
    }

    ghost predicate PacketAt(buffers: seq<seq<byte>>, i: nat)
      requires i < |pushed| && pushed[i].Packet? && |buffers| == COUNT
    {
      var k := PacketsIn(pushed, i);
      && k < |sent| && pushed[i].buffer == k % COUNT && pushed[i].length == |sent[k]|
      && sent[k] <= buffers[k % COUNT]
    }

    function Push(d: Desc, data: seq<seq<byte>>): History {
      History(pushed + [d], sent + data, flushed, consumed, published)
    }
  }

  const NOTHING := History([], [], 0, 0, 0)

  // Packet descriptors among the first n.
  function PacketsIn(pushed: seq<Desc>, n: nat): (k: nat)
    requires n <= |pushed|
    ensures k <= n
  {
    if n == 0 then 0 else PacketsIn(pushed, n - 1) + if pushed[n - 1].Packet? then 1 else 0
  }

  lemma {:induction false} PacketsFewer(pushed: seq<Desc>, m: nat, n: nat)
    requires m <= n <= |pushed|
    ensures PacketsIn(pushed, m) <= PacketsIn(pushed, n) <= PacketsIn(pushed, m) + (n - m)
    decreases n
  {
    if m < n { PacketsFewer(pushed, m, n - 1); }
  }

  lemma {:induction false} PacketsSame(pushed: seq<Desc>, d: Desc, n: nat)
    requires n <= |pushed|
    ensures PacketsIn(pushed + [d], n) == PacketsIn(pushed, n)
  {
    if n > 0 { PacketsSame(pushed, d, n - 1); }
  }

  // The buffer about to be written holds no packet the hardware has not consumed.
  lemma NextBufferFree(h: History, i: nat)
    requires h.Valid() && h.consumed <= i < |h.pushed| && h.pushed[i].Packet?
    ensures PacketsIn(h.pushed, i) < |h.sent| && PacketsIn(h.pushed, i) % COUNT != |h.sent| % COUNT
  {
    PacketsFewer(h.pushed, i + 1, |h.pushed|);
  }

  // The slot about to be written holds no descriptor the hardware has not consumed.
  lemma NextSlotFree(h: History, i: nat)
    requires h.Valid() && h.consumed <= i < |h.pushed|
    ensures i % COUNT != |h.pushed| % COUNT
  {
  }

  lemma WriteKeeps(h: History, buffers: seq<seq<byte>>, data: seq<byte>)
    requires h.Valid() && h.BuffersHold(buffers) && |data| == PACKET_MAX
    ensures h.BuffersHold(buffers[|h.sent| % COUNT := data])
  {
    var after := buffers[|h.sent| % COUNT := data];
    forall i | h.consumed <= i < |h.pushed| && h.pushed[i].Packet?
      ensures h.PacketAt(after, i)
    {
      assert h.PacketAt(buffers, i);
      NextBufferFree(h, i);
    }
  }

  lemma PushSlots(h: History, ring: seq<Desc>, d: Desc, data: seq<seq<byte>>)
    requires h.Valid() && h.SlotsHold(ring)
    ensures h.Push(d, data).SlotsHold(ring[|h.pushed| % COUNT := d])
  {
    var after := ring[|h.pushed| % COUNT := d];
    forall i | h.consumed <= i < |h.pushed|
      ensures after[i % COUNT] == h.pushed[i]
    {
      NextSlotFree(h, i);
    }
  }

  ghost predicate Pushable(h: History, buffers: seq<seq<byte>>, d: Desc, data: seq<seq<byte>>) {
    match d
    case Upper(_) => data == []
    case Packet(b, n) =>
      && |data| == 1 && b == |h.sent| % COUNT && |buffers| == COUNT
      && n == |data[0]| && data[0] <= buffers[b]
  }

  // A push needs a free slot; a packet's bytes must be in its buffer.
  lemma PushKeeps(h: History, buffers: seq<seq<byte>>, d: Desc, data: seq<seq<byte>>)
    requires h.Valid() && h.BuffersHold(buffers) && |h.pushed| - h.published < MDP
    requires Pushable(h, buffers, d, data)
    ensures h.Push(d, data).Valid() && h.Push(d, data).BuffersHold(buffers)
  {
    var g := h.Push(d, data);
    PacketsSame(h.pushed, d, |h.pushed|);
    forall i | g.consumed <= i < |g.pushed| && g.pushed[i].Packet?
      ensures g.PacketAt(buffers, i)
    {
      PacketsSame(h.pushed, d, i);
      if i < |h.pushed| { assert h.PacketAt(buffers, i); }
    }
  }

  // What the hardware has sent after consuming n descriptors.
  function Output(h: History, n: nat): seq<seq<byte>>
    requires n <= |h.pushed| && PacketsIn(h.pushed, n) <= |h.sent|
  {
    h.sent[..PacketsIn(h.pushed, n)]
  }

  // Software's free count: the hardware pointer read last, sdp and the masked difference.
  lemma FreeIs(h: History)
    requires h.Valid()
    ensures (h.published % COUNT - (|h.pushed| % COUNT + 1)) % COUNT == MDP - (|h.pushed| - h.published)
  {
  }

  ghost predicate Memory(h: History, ring: seq<Desc>, buffers: seq<seq<byte>>) {
    h.Valid() && h.SlotsHold(ring) && h.BuffersHold(buffers)
  }

  ghost predicate Pointers(h: History, sdp: nat, sdpHw: nat, hdp: nat, hwPtr: nat) {
    sdp == |h.pushed| % COUNT && sdpHw == h.flushed % COUNT && hdp == h.published % COUNT && hwPtr == h.consumed % COUNT
  }

  // Software never believes in more free slots than there are.
  ghost predicate Free(h: History, dscFree: int) {
    0 <= dscFree <= MDP - (|h.pushed| - h.published)
  }

  // The wire saw exactly the packets consumed so far.
  ghost predicate Wire(h: History, wire: seq<seq<byte>>) {
    h.consumed <= |h.pushed| && PacketsIn(h.pushed, h.consumed) <= |h.sent| && wire == Output(h, h.consumed)
  }

  function WireOf(d: Desc, buffers: seq<seq<byte>>): seq<seq<byte>>
    requires d.Packet? ==> d.buffer < |buffers| && d.length <= |buffers[d.buffer]|
  {
    if d.Packet? then [buffers[d.buffer][..d.length]] else []
  }

  // Consuming a descriptor sends the packet it was pushed for.
  lemma ConsumeSends(h: History, ring: seq<Desc>, buffers: seq<seq<byte>>, wire: seq<seq<byte>>)
    requires Memory(h, ring, buffers) && Wire(h, wire) && h.consumed < h.flushed
    ensures var d, g := ring[h.consumed % COUNT], h.(consumed := h.consumed + 1);
      && (d.Packet? ==> d.buffer < |buffers| && d.length <= |buffers[d.buffer]|)
      && Memory(g, ring, buffers) && Wire(g, wire + WireOf(d, buffers))
  {
    var i := h.consumed;
    var g := h.(consumed := i + 1);
    assert ring[i % COUNT] == h.pushed[i];
    PacketsFewer(h.pushed, i + 1, |h.pushed|);
    if h.pushed[i].Packet? {
      assert h.PacketAt(buffers, i);
      var k := PacketsIn(h.pushed, i);
      assert buffers[k % COUNT][..|h.sent[k]|] == h.sent[k];
      assert h.sent[..k + 1] == h.sent[..k] + [h.sent[k]];
    } else {
      assert wire + [] == wire;
    }
    forall j | g.consumed <= j < |g.pushed| && g.pushed[j].Packet?
      ensures g.PacketAt(buffers, j)
    {
      assert h.PacketAt(buffers, j);
    }
  }

  lemma PushMemory(h: History, ring: seq<Desc>, buffers: seq<seq<byte>>, d: Desc, data: seq<seq<byte>>)
    requires Memory(h, ring, buffers) && Pushable(h, buffers, d, data) && |h.pushed| - h.published < MDP
    ensures Memory(h.Push(d, data), ring[|h.pushed| % COUNT := d], buffers)
  {
    PushSlots(h, ring, d, data);
    PushKeeps(h, buffers, d, data);
  }

  lemma PushWire(h: History, wire: seq<seq<byte>>, d: Desc, data: seq<seq<byte>>)
    requires Wire(h, wire)
    ensures Wire(h.Push(d, data), wire)
  {
    PacketsSame(h.pushed, d, h.consumed);
  }

  lemma PointerMoves(n: nat)
    ensures (n + 1) % COUNT == (n % COUNT + 1) % COUNT
  {
  }

  datatype Outcome = Sent | Rejected | Waiting

  class QueueNdpTx {
    const mtuMin: nat
    const mtuMax: nat
    // Memory: the descriptor ring and the packet buffers.
    const ring: array<Desc>
    const buffers: array<seq<byte>>
    // Driver.
    var started: bool
    var dscFree: int
    var npi: nat
    // Controller registers: pushed, flushed and reported pointers.
    var sdp: nat
    var sdpHw: nat
    var hdp: nat
    // Hardware: its read pointer and the packets it put on the wire.
    var hwPtr: nat
    var wire: seq<seq<byte>>
    ghost var h: History

    ghost predicate Holds()
      reads this, ring, buffers
    {
      && Memory(h, ring[..], buffers[..])
      && Pointers(h, sdp, sdpHw, hdp, hwPtr)
      && Free(h, dscFree)
      && Wire(h, wire)
      && (!started ==> h == NOTHING)
    }

    ghost predicate Valid()
      reads this, ring, buffers
    {
      Holds() && npi == |h.sent| % COUNT
    }

    constructor (mtuMin: nat, mtuMax: nat)
      ensures Valid() && h == NOTHING && !started
      ensures this.mtuMin == mtuMin && this.mtuMax == mtuMax
      ensures fresh(ring) && fresh(buffers)
    {
      this.mtuMin, this.mtuMax := mtuMin, mtuMax;
      ring := new Desc[COUNT](_ => Upper(0));
      buffers := new seq<byte>[COUNT](_ => Repeat(0, PACKET_MAX));
      started := false;
      dscFree, npi, sdp, sdpHw, hdp, hwPtr := 0, 0, 0, 0, 0, 0;
      wire := [];
      h := NOTHING;
    }

    // The controller starts with all pointers at zero.
    method Start()
      requires Valid() && !started
      modifies this`dscFree, this`npi, this`started
      ensures Valid() && started && h == NOTHING && dscFree == MDP
    {
      dscFree := MDP;
      npi := 0;
      started := true;
    }

    // ------------------------------------------------------------ hardware

    // The hardware consumes the next descriptor it was told about.
    method Consume()
      requires Holds() && hwPtr != sdpHw
      modifies this`hwPtr, this`wire, this`h
      ensures Holds() && h == old(h).(consumed := old(h).consumed + 1)
      ensures old(wire) <= wire
    {
      hide History.Valid, Memory, Wire;
      MemoryShaped(h, ring[..], buffers[..]);
      PointerMoves(h.consumed);
      ConsumeSends(h, ring[..], buffers[..], wire);
      var d := ring[hwPtr];
      assert wire + [] == wire;
      if d.Packet? {
        wire := wire + [buffers[d.buffer][..d.length]];
      }
      hwPtr := (hwPtr + 1) % COUNT;
      h := h.(consumed := h.consumed + 1);
    }

    // The hardware runs for a while: it consumes any number of flushed descriptors and may
    // report how far it got.
    method HardwareRuns()
      requires Holds()
      modifies this`hwPtr, this`wire, this`h, this`hdp
      ensures Holds() && h == old(h).(consumed := h.consumed, published := h.published)
      ensures old(h).consumed <= h.consumed && old(h).published <= h.published
      ensures old(wire) <= wire
    {
      var steps: nat :| true;
      while steps > 0 && hwPtr != sdpHw
        invariant Holds() && h == old(h).(consumed := h.consumed) && old(h).consumed <= h.consumed
        invariant old(wire) <= wire
      {
        hide Holds;
        Consume();
        steps := steps - 1;
      }
      var report: bool :| true;
      if report {
        hide Wire;
        ReportKeeps(h, ring[..], buffers[..], wire);
        hdp := hwPtr;
        h := h.(published := h.consumed);
      }
    }

    // ------------------------------------------------------------ driver

    method PushOneDesc(d: Desc, ghost data: seq<seq<byte>>)
      requires Holds() && started && dscFree > 0 && Pushable(h, buffers[..], d, data)
      modifies this`sdp, this`dscFree, this`h, ring
      ensures Holds() && h == old(h).Push(d, data) && dscFree == old(dscFree) - 1
    {
      hide History.Valid, Memory, Wire, Pushable;
      MemoryShaped(h, ring[..], buffers[..]);
      PushMemory(h, ring[..], buffers[..], d, data);
      PushWire(h, wire, d, data);
      PointerMoves(|h.pushed|);
      ring[sdp] := d;
      sdp := (sdp + 1) % COUNT;
      dscFree := dscFree - 1;
      h := h.Push(d, data);
    }

    // update_desc_upper_address: a descriptor of its own, if the upper address changed.
    method UpdateDescUpperAddress(high: nat, changed: bool) returns (pushed: bool)
      requires Valid() && started && dscFree >= 2
      modifies this`sdp, this`dscFree, this`h, ring
      ensures Valid() && pushed == changed && dscFree == old(dscFree) - (if changed then 1 else 0)
      ensures h == if changed then old(h).Push(Upper(high), []) else old(h)
    {
      if !changed {
        return false;
      }
      PushOneDesc(Upper(high), []);
      pushed := true;
    }

    // flush: the hardware learns of every descriptor pushed.
    method Flush()
      requires Valid()
      modifies this`sdpHw, this`h
      ensures Valid() && h == if started then old(h).(flushed := |old(h).pushed|) else old(h)
    {
      if started {
        FlushKeeps(h, ring[..], buffers[..], wire);
        hide Memory, Wire;
        sdpHw := sdp;
        h := h.(flushed := |h.pushed|);
      }
    }

    // The packet's bytes go to the next buffer.
    method WriteBuffer(data: seq<byte>)
      requires Valid() && |data| <= PACKET_MAX
      modifies buffers
      ensures Valid() && data <= buffers[npi]
    {
      MemoryShaped(h, ring[..], buffers[..]);
      assert |buffers[npi]| == PACKET_MAX;
      var whole := data + buffers[npi][|data|..];
      WriteKeeps(h, buffers[..], whole);
      hide Wire;
      buffers[npi] := whole;
    }

    predicate Fits(length: nat) {
      mtuMin <= length <= (if PACKET_MAX < mtuMax then PACKET_MAX else mtuMax)
    }

    // The wait loop: the hardware runs between any two polls of its pointer. Whatever it
    // does, two descriptors become free only if at most MDP - 2 are left unflushed.
    method WaitForRoom(polls: nat) returns (room: bool)
      requires Valid() && started
      modifies this`hwPtr, this`wire, this`h, this`hdp, this`dscFree
      ensures Valid() && room == (dscFree >= 2)
      ensures h == old(h).(consumed := h.consumed, published := h.published) && old(wire) <= wire
      ensures old(dscFree) >= 2 ==> dscFree == old(dscFree)
      ensures old(dscFree) < 2 && polls > 0 ==> dscFree == MDP - (|h.pushed| - h.published)
      ensures old(dscFree) < 2 && |h.pushed| - h.flushed > MDP - 2 ==> !room
    {
      hide Memory, Wire, History.Valid;
      var n := 0;
      while dscFree < 2 && n < polls
        invariant Valid() && h == old(h).(consumed := h.consumed, published := h.published) && old(wire) <= wire
        invariant if old(dscFree) < 2 && n > 0 then dscFree == MDP - (|h.pushed| - h.published)
          else dscFree == old(dscFree)
        invariant old(dscFree) < 2 && |h.pushed| - h.flushed > MDP - 2 ==> dscFree < 2
        decreases polls - n
      {
        HardwareRuns();
        MemoryShaped(h, ring[..], buffers[..]);
        FreeIs(h);
        dscFree := (hdp - (sdp + 1)) % COUNT;
        n := n + 1;
      }
      room := dscFree >= 2;
    }

    // The descriptors the driver believes to be free when it is about to send.
    function Believed(): int
      reads this
    {
      if started then dscFree else MDP
    }

    // sendmsg, with the hardware running between any two steps of the driver.
    method SendMsg(pkt: seq<byte>, hdr: seq<byte>, flush: bool, high: nat, changed: bool, polls: nat)
      returns (r: Outcome)
      requires Valid()
      modifies this, ring, buffers
      ensures Valid() && old(wire) <= wire <= h.sent
      ensures r != Rejected <==> mtuMin <= |pkt| + |hdr| <= mtuMax && |pkt| + |hdr| <= 4096
      ensures r == Rejected ==> h == old(h) && started == old(started) && dscFree == old(dscFree)
      ensures r == Sent ==> h.sent == old(h).sent + [pkt + hdr]
      ensures r == Sent ==>
        h.pushed == old(h).pushed + (if changed then [Upper(high)] else [])
          + [Packet(|old(h).sent| % 256, |pkt + hdr|)]
      ensures r == Sent ==> h.flushed == if flush then |h.pushed| else old(h).flushed
      ensures r == Waiting ==> h.sent == old(h).sent && h.pushed == old(h).pushed && h.flushed == old(h).flushed
      ensures r == Waiting && polls > 0 ==> |h.pushed| - h.published > MDP - 2
      ensures r != Rejected ==> started
      ensures r != Rejected && old(Believed()) >= 2 ==>
        r == Sent && dscFree == old(Believed()) - (if changed then 2 else 1)
      ensures r == Waiting ==> dscFree < 2
      ensures old(started) && old(dscFree) < 2 && |old(h).pushed| - old(h).flushed > MDP - 2 ==> r != Sent
    {
      hide Holds, Fits, Pushable;
      var pktHdr := pkt + hdr;
      if !Fits(|pktHdr|) {
        OnWire();
        FitsIs(|pktHdr|);
        return Rejected;
      }
      FitsBuffer(|pktHdr|);
      FitsIs(|pktHdr|);
      if !started {
        NothingYet();
        Start();
      }
      var room := WaitForRoom(polls);
      if !room {
        OnWire();
        return Waiting;
      }
      Deliver(pktHdr, high, changed);
      if flush {
        Flush();
      }
      OnWire();
      r := Sent;
    }

    // The part of sendmsg that fills the rings.
    method Deliver(data: seq<byte>, high: nat, changed: bool)
      requires Valid() && started && dscFree >= 2 && |data| <= PACKET_MAX
      modifies this`sdp, this`dscFree, this`h, this`npi, this`hwPtr, this`wire, this`hdp, ring, buffers
      ensures Valid() && started && old(wire) <= wire && dscFree == old(dscFree) - (if changed then 2 else 1)
      ensures h.sent == old(h).sent + [data] && h.flushed == old(h).flushed
      ensures h.pushed ==
        old(h).pushed + (if changed then [Upper(high)] else []) + [Packet(|old(h).sent| % COUNT, |data|)]
    {
      hide Holds, Pushable;
      HardwareRuns();
      var pushed := UpdateDescUpperAddress(high, changed);
      HardwareRuns();
      WriteBuffer(data);
      HardwareRuns();
      PushPacket(data);
      HardwareRuns();
    }

    // Whatever is on the wire was sent.
    lemma OnWire()
      requires Valid()
      ensures wire <= h.sent
    {
      MemoryShaped(h, ring[..], buffers[..]);
      WireIsSent(h, wire);
    }

    lemma NothingYet()
      requires Valid() && !started
      ensures h == NOTHING
    {
    }

    lemma FitsIs(length: nat)
      ensures Fits(length) <==> mtuMin <= length <= mtuMax && length <= 4096
    {
    }

    lemma FitsBuffer(length: nat)
      requires Fits(length)
      ensures length <= PACKET_MAX
    {
    }

    // The packet's descriptor, and the index of the next packet buffer.
    method PushPacket(data: seq<byte>)
      requires Valid() && started && dscFree > 0 && data <= buffers[npi]
      modifies this`sdp, this`dscFree, this`h, this`npi, ring
      ensures Valid() && h == old(h).Push(Packet(old(npi), |data|), [data]) && dscFree == old(dscFree) - 1
    {
      hide Wire;
      MemoryShaped(h, ring[..], buffers[..]);
      PointerMoves(|h.sent|);
      PushOneDesc(Packet(npi, |data|), [data]);
      npi := (npi + 1) % COUNT;
    }
  }

  // The hardware sends the packets in order, whole and unchanged; once it has consumed every
  // descriptor, all of them.
  lemma WireIsSent(h: History, wire: seq<seq<byte>>)
    requires h.Valid() && Wire(h, wire)
    ensures wire <= h.sent
    ensures h.consumed == |h.pushed| ==> wire == h.sent
  {
  }

  // With everything flushed consumed and reported, a poll finds room for a packet and an
  // upper address exactly if at most MDP - 2 descriptors are unflushed.
  lemma RoomOnceCaughtUp(h: History)
    requires h.Valid() && h.published == h.flushed
    ensures (h.published % 256 - (|h.pushed| % 256 + 1)) % 256 >= 2 <==> |h.pushed| - h.flushed <= 253
  {
    FreeIs(h);
  }

  lemma MemoryShaped(h: History, ring: seq<Desc>, buffers: seq<seq<byte>>)
    requires Memory(h, ring, buffers)
    ensures |ring| == COUNT && |buffers| == COUNT && h.Valid()
    ensures h.published <= h.consumed <= h.flushed <= |h.pushed| && |h.pushed| - h.published <= MDP
  {
  }

  lemma ReportKeeps(h: History, ring: seq<Desc>, buffers: seq<seq<byte>>, wire: seq<seq<byte>>)
    requires Memory(h, ring, buffers) && Wire(h, wire)
    ensures var g := h.(published := h.consumed);
      Memory(g, ring, buffers) && Wire(g, wire) && h.published <= g.published
  {
    var g := h.(published := h.consumed);
    forall j | g.consumed <= j < |g.pushed| && g.pushed[j].Packet?
      ensures g.PacketAt(buffers, j)
    {
      assert h.PacketAt(buffers, j);
    }
  }

  lemma FlushKeeps(h: History, ring: seq<Desc>, buffers: seq<seq<byte>>, wire: seq<seq<byte>>)
    requires Memory(h, ring, buffers) && Wire(h, wire)
    ensures var g := h.(flushed := |h.pushed|); Memory(g, ring, buffers) && Wire(g, wire)
  {
    var g := h.(flushed := |h.pushed|);
    forall j | g.consumed <= j < |g.pushed| && g.pushed[j].Packet?
      ensures g.PacketAt(buffers, j)
    {
      assert h.PacketAt(buffers, j);
    }
  }

  // A queue that is never flushed: on a new one 254 packets are sent, and the next one never
  // is, however often it is tried and however long each try waits.
  method NeverFlushed(q: QueueNdpTx, pkts: seq<seq<byte>>, next: seq<byte>, high: nat, waits: seq<nat>)
    returns (sent: bool)
    requires q.Valid() && !q.started && |pkts| == 254
    requires forall i :: 0 <= i < |pkts| ==> q.mtuMin <= |pkts[i]| <= q.mtuMax && |pkts[i]| <= 4096
    requires q.mtuMin <= |next| <= q.mtuMax && |next| <= 4096
    modifies q, q.ring, q.buffers
    ensures q.Valid() && q.h.sent == pkts && !sent
  {
    hide QueueNdpTx.Valid;
    q.NothingYet();
    for i := 0 to |pkts|
      invariant q.Valid() && q.h.sent == pkts[..i] && |q.h.pushed| == i && q.h.flushed == 0
      invariant q.Believed() == MDP - i && (i > 0 ==> q.started)
    {
      assert pkts[i] + [] == pkts[i] && pkts[..i + 1] == pkts[..i] + [pkts[i]];
      var r := q.SendMsg(pkts[i], [], false, high, false, 0);
      assert r == Sent;
    }
    sent := false;
    for i := 0 to |waits|
      invariant q.Valid() && q.started && q.h.sent == pkts && |q.h.pushed| == MDP - 1 && q.h.flushed == 0
      invariant q.dscFree < 2 && !sent
    {
      assert next + [] == next;
      var r := q.SendMsg(next, [], false, high, false, waits[i]);
      assert r == Waiting;
      sent := sent || r == Sent;
    }
  }
}
