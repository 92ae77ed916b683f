/** Who holds a packet buffer (common/Buffer.h and the UDP handlers of relayserver/Channel.cc). */
module BufferPool {
  import opened Bytes
  import opened Wrappers

  datatype Datagram = Datagram(ip: nat, port: nat, data: seq<Byte>)

  class DataBuffer {
    var content: Datagram
    /** The pool that allocated the buffer. */
    ghost const home: MemPool

    constructor (ghost home: MemPool)
      ensures this.home == home
    {
      this.home := home;
      content := Datagram(0, 0, []);
    }
  }

  ghost predicate Distinct(bs: seq<DataBuffer>) {
    forall i, j | 0 <= i < j < |bs| :: bs[i] != bs[j]
  }

  class MemPool {
    const slots: array<DataBuffer?>
    var count: nat
    ghost var free: seq<DataBuffer>

    ghost predicate Valid()
      reads this, slots
    {
      && count == |free| <= slots.Length
      && (forall i | 0 <= i < count :: slots[i] == free[i])
      && Distinct(free)
      && (forall b | b in free :: b.home == this)
    }

    constructor (capacity: nat)
      ensures Valid() && free == [] && slots.Length == capacity && fresh(slots)
    {
      slots := new DataBuffer?[capacity](_ => null);
      count, free := 0, [];
    }

    /** The most recently released buffer, or a new one. */
    method GetMemory() returns (b: DataBuffer)
      requires Valid()
      modifies this, slots
      ensures Valid() && b.home == this && b !in free
      ensures if old(free) == [] then free == [] && fresh(b) else old(free) == free + [b]
    {
      if count == 0 {
        b := new DataBuffer(this);
      } else {
        count := count - 1;
        b := slots[count];
        slots[count] := null;
        assert b == free[count];
        free := free[..count];
      }
    }

    /** A full pool deletes the buffer instead of keeping it; no buffer is no work. */
    method Release(b: DataBuffer?)
      requires Valid() && (b != null ==> b !in free && b.home == this)
      modifies this, slots
      ensures Valid()
      ensures free == if b == null || |old(free)| >= slots.Length then old(free) else old(free) + [b]
    {
      if b == null {
        return;
      }
      if count < slots.Length {
        slots[count] := b;
        count := count + 1;
        free := free + [b];
      }
    }
  }

  class UDPChannel {
    const pool: MemPool
    var queue: seq<DataBuffer>
    var lastRecv: int
    /** Where the datagrams received here are to go. */
    var peerIp: nat
    var peerPort: nat
    /** Everything ever queued, everything ever sent, and what the queue holds. */
    ghost var queued: seq<Datagram>
    ghost var sent: seq<Datagram>
    ghost var waiting: seq<Datagram>

    /** Each buffer is in one place only, pool or queue, and belongs to this channel's pool; what was sent, then
        what is waiting, is all that was queued, in order. */
    ghost predicate Valid()
      reads this, pool, pool.slots, queue
    {
      && pool.Valid()
      && Distinct(queue)
      && (forall b | b in queue :: b !in pool.free && b.home == pool)
      && |waiting| == |queue| && (forall i | 0 <= i < |queue| :: queue[i].content == waiting[i])
      && queued == sent + waiting
    }

    constructor (capacity: nat)
      ensures Valid() && queue == [] && sent == []
      ensures fresh(pool) && fresh(pool.slots) && pool.free == []
    {
      pool := new MemPool(capacity);
      queue, queued, sent, waiting := [], [], [], [];
      lastRecv, peerIp, peerPort := 0, 0, 0;
    }

    /** The buffers this channel holds. */
    ghost function Held(): (bs: set<DataBuffer>)
      reads this, pool
    {
      (set b | b in pool.free) + (set b | b in queue)
    }

    /** A buffer for a datagram, now in the handler's hand and nowhere else. */
    method TakeBuffer() returns (b: DataBuffer)
      requires Valid()
      modifies pool, pool.slots
      ensures Valid() && b.home == pool && b !in pool.free && b !in queue
      ensures if old(pool.free) == [] then pool.free == [] && fresh(b) else old(pool.free) == pool.free + [b]
      ensures old(Held()) <= Held() + {b} && Held() <= old(Held()) && (fresh(b) || b in old(Held()))
    {
      ghost var free := pool.free;
      b := pool.GetMemory();
      assert free != [] ==> free[|free| - 1] == b && b in free;
      assert forall x | x in free :: x in pool.free || x == b;
      assert forall x | x in pool.free :: x in free;
    }

    /** `sendBuf`: the buffer in hand goes to the end of the queue. */
    method SendBuf(b: DataBuffer)
      requires Valid() && b.home == pool && b !in pool.free && b !in queue
      modifies this`queue, this`queued, this`waiting
      ensures Valid() && queue == old(queue) + [b] && queued == old(queued) + [b.content]
      ensures Held() == old(Held()) + {b}
    {
      queue := queue + [b];
      queued := queued + [b.content];
      waiting := waiting + [b.content];
    }

    /** The buffer in hand goes back to its pool, which deletes it if it is full. */
    method GiveBack(b: DataBuffer)
      requires Valid() && b.home == pool && b !in pool.free && b !in queue
      modifies pool, pool.slots
      ensures Valid()
      ensures pool.free == if |old(pool.free)| >= pool.slots.Length then old(pool.free) else old(pool.free) + [b]
      ensures Held() == if |old(pool.free)| >= pool.slots.Length then old(Held()) else old(Held()) + {b}
    {
      pool.Release(b);
    }

    /** The part of `handleRecv` that concerns its peer, which is this channel: a buffer from the pool is filled
        and queued, or given back when receiving failed. At most one buffer is new, and none is lost. */
    method TakeDatagram(received: Option<seq<Byte>>, ip: nat, port: nat)
      requires Valid()
      modifies this`queue, this`queued, this`waiting, pool, pool.slots, pool.free
      ensures Valid() && sent == old(sent)
      ensures received.None? ==> queue == old(queue) && queued == old(queued)
      ensures received.Some? ==> queued == old(queued) + [Datagram(ip, port, received.value)]
      ensures old(Held()) <= Held() && forall b | b in Held() && b !in old(Held()) :: fresh(b)
    {
      var b := TakeBuffer();
      match received
      case None =>
        GiveBack(b);
      case Some(data) =>
        FillBuffer(b, Datagram(ip, port, data));
        SendBuf(b);
    }

    /** Everything that a datagram for this channel may change. */
    ghost function Footprint(): (os: set<object>)
      reads this, pool
    {
      {this, pool, pool.slots} + (set b | b in pool.free)
    }

    /** `handleRecv`: the receipt is noted, and the datagram goes to the peer's queue, addressed as this channel
        says. Without a peer nothing is even read. */
    method HandleRecv(peer: UDPChannel?, received: Option<seq<Byte>>, now: int)
      requires peer != null ==> peer.Valid() && this !in peer.Footprint()
      modifies this`lastRecv, if peer == null then {} else peer.Footprint()
      ensures lastRecv == now
      ensures peer != null ==>
                && peer.Valid() && peer.sent == old(peer.sent)
                && (received.None? ==> peer.queue == old(peer.queue) && peer.queued == old(peer.queued))
                && (received.Some? ==> peer.queued == old(peer.queued) + [Datagram(peerIp, peerPort, received.value)])
                && old(peer.Held()) <= peer.Held() && forall b | b in peer.Held() && b !in old(peer.Held()) :: fresh(b)
    {
      lastRecv := now;
      if peer == null {
        return;
      }
      peer.TakeDatagram(received, peerIp, peerPort);
    }

    method FillBuffer(b: DataBuffer, d: Datagram)
      requires Valid() && b !in queue
      modifies b
      ensures Valid() && b.content == d
    {
      b.content := d;
    }

    /** The head of the queue is popped and goes out. */
    method PopAndSend() returns (b: DataBuffer)
      requires Valid() && queue != []
      modifies this`queue, this`sent, this`waiting
      ensures Valid() && b == old(queue)[0] && queue == old(queue)[1..] && sent == old(sent) + [b.content]
      ensures b.home == pool && b !in pool.free && b !in queue
    {
      b := queue[0];
      ghost var q := queue;
      queue := queue[1..];
      assert forall i | 0 <= i < |queue| :: queue[i] == q[i + 1];
      sent := sent + [b.content];
      waiting := waiting[1..];
    }

    /** One turn of `handleSend`: the head of the queue is popped and sent, or pushed back to the head. */
    method SendHead(accept: bool)
      requires Valid() && queue != []
      modifies this`queue, this`sent, this`waiting, pool, pool.slots
      ensures Valid()
      ensures !accept ==> queue == old(queue) && sent == old(sent) && pool.free == old(pool.free)
      ensures accept ==> queue == old(queue)[1..] && sent == old(sent) + [old(queue)[0].content]
      ensures Held() <= old(Held()) && |pool.free| >= |old(pool.free)|
      ensures Held() == old(Held()) || |pool.free| == pool.slots.Length
    {
      if !accept {
        var b := queue[0];
        queue := queue[1..];
        queue := [b] + queue;
        assert queue == old(queue);
      } else {
        ghost var q := queue;
        var b := PopAndSend();
        assert q == [b] + queue;
        assert Held() + {b} == old(Held());
        GiveBack(b);
      }
    }

    /** `handleSend`: datagrams leave from the head of the queue, in order, until the socket refuses one.
        `accepts` are the socket's answers; it refuses after the last one. Only a full pool loses buffers. */
    method HandleSend(accepts: seq<bool>) returns (ghost n: nat)
      requires Valid()
      modifies this`queue, this`sent, this`waiting, pool, pool.slots
      ensures Valid() && queued == old(queued) && old(sent) <= sent
      ensures Held() <= old(Held())
      ensures Held() == old(Held()) || |pool.free| == pool.slots.Length
      ensures |sent| == |old(sent)| + n && n <= |accepts| && forall j | 0 <= j < n :: accepts[j]
      ensures queue == [] || n == |accepts| || !accepts[n]
    {
      var i: nat := 0;
      n := 0;
      while queue != []
        invariant i == n <= |accepts| && |sent| == |old(sent)| + n && forall j | 0 <= j < n :: accepts[j]
        invariant Valid() && old(sent) <= sent && Held() <= old(Held())
        invariant Held() == old(Held()) || |pool.free| == pool.slots.Length
        decreases |queue|
      {
        if i == |accepts| || !accepts[i] {
          SendHead(false);
          return;
        }
        SendHead(true);
        i, n := i + 1, n + 1;
      }
    }
  }

  datatype Side = Left | Right

  /** What a loop does with one of two channels: it receives a datagram, or none, or it may send. */
  datatype Action = Recv(side: Side, received: Option<seq<Byte>>, now: int) | Send(side: Side, accepts: seq<bool>)

  /** Both channels are in order, and no buffer is in the hands of both. */
  ghost predicate Apart(a: UDPChannel, b: UDPChannel)
    reads a, a.pool, a.pool.slots, a.queue, b, b.pool, b.pool.slots, b.queue
  {
    && a.Valid() && b.Valid()
    && a != b && a.pool != b.pool && a.pool.slots != b.pool.slots
    && a.Held() !! b.Held()
  }

  /** A datagram that `a` receives goes to `b`: `a` keeps its buffers and its queue. */
  method Pass(a: UDPChannel, b: UDPChannel, received: Option<seq<Byte>>, now: int)
    requires Apart(a, b)
    modifies a`lastRecv, b.Footprint()
    ensures Apart(a, b) && a.Held() == old(a.Held()) && a.queued == old(a.queued) && a.sent == old(a.sent)
    ensures b.sent == old(b.sent) && old(b.queued) <= b.queued
    ensures |b.queued| == |old(b.queued)| + if received.Some? then 1 else 0
    ensures old(b.Held()) <= b.Held() && forall o | o in b.Held() && o !in old(b.Held()) :: fresh(o)
  {
    a.HandleRecv(b, received, now);
  }

  /** Two channels that are each other's peers, as the two ends of a UDP session are. */
  class Pair {
    const left: UDPChannel
    const right: UDPChannel

    ghost predicate Valid()
      reads this, left, left.pool, left.pool.slots, left.queue, right, right.pool, right.pool.slots, right.queue
    {
      Apart(left, right)
    }

    /** Everything the two channels own. */
    ghost function Footprint(): (os: set<object>)
      reads this, left, left.pool, right, right.pool
    {
      {left, left.pool, left.pool.slots, right, right.pool, right.pool.slots} + left.Held() + right.Held()
    }

    constructor (capacity: nat)
      ensures Valid() && fresh(Footprint()) && left.queued == [] && right.queued == []
    {
      left := new UDPChannel(capacity);
      right := new UDPChannel(capacity);
    }

    /** A datagram that comes in at one side is queued at the other in a buffer of the other's pool. */
    method Receive(side: Side, received: Option<seq<Byte>>, now: int)
      requires Valid()
      modifies Footprint()
      ensures Valid() && forall o | o in Footprint() && o !in old(Footprint()) :: fresh(o)
      ensures left.sent == old(left.sent) && right.sent == old(right.sent)
      ensures old(left.queued) <= left.queued && old(right.queued) <= right.queued
      ensures |left.queued| == |old(left.queued)| + if side.Right? && received.Some? then 1 else 0
      ensures |right.queued| == |old(right.queued)| + if side.Left? && received.Some? then 1 else 0
      ensures old(left.Held()) <= left.Held() && old(right.Held()) <= right.Held()
    {
      if side.Left? {
        Pass(left, right, received, now);
      } else {
        Pass(right, left, received, now);
      }
    }

    /** One side sends what its socket takes; the other side is not concerned. */
    method Transmit(side: Side, accepts: seq<bool>)
      requires Valid()
      modifies Footprint()
      ensures Valid() && Footprint() <= old(Footprint())
      ensures left.queued == old(left.queued) && right.queued == old(right.queued)
      ensures old(left.sent) <= left.sent && old(right.sent) <= right.sent
      ensures side.Left? ==> right.sent == old(right.sent) && right.Held() == old(right.Held())
      ensures side.Right? ==> left.sent == old(left.sent) && left.Held() == old(left.Held())
    {
      ghost var n;
      if side.Left? {
        n := left.HandleSend(accepts);
      } else {
        n := right.HandleSend(accepts);
      }
    }

    /** Any run of both handlers at both sides: no buffer is ever in two hands or in the wrong pool, none comes
        from elsewhere, and at each side what was sent is the front of what was queued. */
    method Run(actions: seq<Action>)
      requires Valid()
      modifies Footprint()
      ensures Valid() && forall o | o in Footprint() && o !in old(Footprint()) :: fresh(o)
      ensures old(left.queued) <= left.queued && old(left.sent) <= left.sent <= left.queued
      ensures old(right.queued) <= right.queued && old(right.sent) <= right.sent <= right.queued
    {
      for i := 0 to |actions|
        invariant Valid() && forall o | o in Footprint() && o !in old(Footprint()) :: fresh(o)
        invariant old(left.queued) <= left.queued && old(left.sent) <= left.sent
        invariant old(right.queued) <= right.queued && old(right.sent) <= right.sent
      {
        match actions[i]
        case Recv(side, received, now) => Receive(side, received, now);
        case Send(side, accepts) => Transmit(side, accepts);
      }
    }
  }
}
