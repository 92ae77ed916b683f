/**
  The client's framed TCP stream (common/TcpParsePdu.h): two fixed buffers, a sender that survives any
  sequence of partial writes, and a receiver that reassembles frames from arbitrary chunks.
 */
module ClientStream {
  import opened Bytes
  import opened Framing

  const TCP_MAX_BUF_LEN := 2097152

  /** What one call of `Send` offered `buf` does: `sent` is its result read as a uint32, so an error (-1) is
      larger than any buffer and moves nothing. */
  datatype Flushed = Flushed(buf: seq<Byte>, wire: seq<Byte>)

  function FlushBytes(buf: seq<Byte>, sent: nat): (f: Flushed)
    ensures f.wire + f.buf == buf
    ensures |f.wire| == if sent <= |buf| then sent else 0
  {
    if sent > |buf| then Flushed(buf, []) else Flushed(buf[sent..], buf[..sent])
  }

  /** One turn of the parsing loop. */
  lemma ParseStep(done: seq<Pdu>, s: seq<Byte>, p: Pdu, tail: seq<Byte>)
    requires !Incomplete(s)
    requires p == Pdu(U16(s, 6), s[PDU_HEAD_LEN..PDU_HEAD_LEN + U16(s, 4)])
    requires tail == s[PDU_HEAD_LEN + U16(s, 4)..]
    ensures done + Parse(s).pdus == done + [p] + Parse(tail).pdus
    ensures Parse(s).rest == Parse(tail).rest
  {
    assert done + ([p] + Parse(tail).pdus) == done + [p] + Parse(tail).pdus;
  }

  class TcpParsePdu {
    const recvBuf: array<Byte>
    var curPos: nat
    const sendBuf: array<Byte>
    var curSendPos: nat

    ghost predicate Valid()
      reads this
    {
      && recvBuf.Length == TCP_MAX_BUF_LEN
      && sendBuf.Length == TCP_MAX_BUF_LEN
      && recvBuf != sendBuf
      && curPos <= TCP_MAX_BUF_LEN
      && curSendPos <= TCP_MAX_BUF_LEN
    }

    /** The receive buffer holds less than one frame; every parsing call ends like this. */
    ghost predicate Settled()
      reads this, recvBuf
    {
      Valid() && Incomplete(Received())
    }

    ghost function Received(): (s: seq<Byte>)
      requires Valid()
      reads this, recvBuf
    {
      recvBuf[..curPos]
    }

    ghost function Unsent(): (s: seq<Byte>)
      requires Valid()
      reads this, sendBuf
    {
      sendBuf[..curSendPos]
    }

    constructor ()
      ensures Settled() && recvBuf.Length == sendBuf.Length == 2 * 1024 * 1024
      ensures fresh(recvBuf) && fresh(sendBuf)
      ensures Received() == [] && Unsent() == []
    {
      recvBuf := new Byte[TCP_MAX_BUF_LEN](_ => 0);
      sendBuf := new Byte[TCP_MAX_BUF_LEN](_ => 0);
      curPos, curSendPos := 0, 0;
    }

    /** `delivered` lists the calls of the packet handler, in order. From a settled state the overflow branch
        is dead, whatever the 16-bit-sized chunk holds. */
    method ParseTcpPdu(inBuf: seq<Byte>) returns (ok: bool, delivered: seq<Pdu>)
      requires Valid()
      requires |inBuf| < 0x1_0000
      modifies this`curPos, recvBuf
      ensures Valid()
      ensures !ok ==> delivered == [] && Received() == old(Received())
      ensures ok ==> Incomplete(Received())
      ensures ok ==> Parsed(delivered, Received()) == Parse(old(Received()) + inBuf)
      ensures ok <==> old(curPos) + |inBuf| <= TCP_MAX_BUF_LEN
      ensures old(Settled()) ==> ok
    {
      delivered := [];
      if curPos + |inBuf| > TCP_MAX_BUF_LEN {
        return false, delivered;
      }
      AppendChunk(inBuf);
      ghost var all := Received();
      while true
        invariant Valid()
        invariant Parse(all) == Parsed(delivered + Parse(Received()).pdus, Parse(Received()).rest)
        decreases curPos
      {
        ghost var s, before := Received(), delivered;
        if curPos < PDU_HEAD_LEN {
          return true, delivered;
        }
        var dataLen := HeadField(4);
        if curPos < PDU_HEAD_LEN + dataLen {
          return true, delivered;
        }
        var p := Pdu(HeadField(6), recvBuf[PDU_HEAD_LEN..PDU_HEAD_LEN + dataLen]);
        SlicePrefix(recvBuf[..], PDU_HEAD_LEN, PDU_HEAD_LEN + dataLen, curPos);
        delivered := delivered + [p];
        DropFront(PDU_HEAD_LEN + dataLen);
        ParseStep(before, s, p, Received());
      }
    }

    method AppendChunk(inBuf: seq<Byte>)
      requires Valid() && curPos + |inBuf| <= TCP_MAX_BUF_LEN
      modifies this`curPos, recvBuf
      ensures Valid() && Received() == old(Received()) + inBuf
    {
      Store(recvBuf, curPos, inBuf);
      assert recvBuf[..curPos + |inBuf|] == recvBuf[..curPos] + recvBuf[curPos..curPos + |inBuf|];
      curPos := curPos + |inBuf|;
    }

    function HeadField(i: nat): (v: nat)
      requires Valid() && i + 1 < curPos
      reads this, recvBuf
      ensures v == U16(Received(), i)
    {
      (recvBuf[i] as int) + 256 * (recvBuf[i + 1] as int)
    }

    /** The bytes behind the first `n` move to the front of the receive buffer. */
    method DropFront(n: nat)
      requires Valid() && n <= curPos
      modifies this`curPos, recvBuf
      ensures Valid() && curPos == old(curPos) - n
      ensures Received() == old(Received())[n..]
    {
      SliceTail(recvBuf[..], 0, n, curPos);
      curPos := curPos - n;
      if curPos > 0 {
        MoveToFront(recvBuf, n, curPos);
      }
    }

    /** `sent` is what the socket answers to the flush that follows the packing; `wire` what it took. */
    method SendTcpPdu(inBuf: seq<Byte>, cmdType: nat, sent: nat) returns (ok: bool, wire: seq<Byte>)
      requires Valid()
      requires |inBuf| < 0x1_0000 && cmdType < 0x1_0000
      modifies this`curSendPos, sendBuf
      ensures Valid()
      ensures ok <==> old(curSendPos) + PDU_HEAD_LEN + |inBuf| <= TCP_MAX_BUF_LEN
      ensures !ok ==> wire == [] && Unsent() == old(Unsent())
      ensures ok ==>
        var junk := old(sendBuf[curSendPos + 3]);
        var all := old(Unsent()) + Frame(Pdu(cmdType, inBuf), junk);
        && wire + Unsent() == all && |wire| == (if sent <= |all| then sent else 0)
        && Flushed(Unsent(), wire) == FlushBytes(all, sent)
    {
      if curSendPos + PDU_HEAD_LEN + |inBuf| > TCP_MAX_BUF_LEN {
        return false, [];
      }
      PackPduBuf(sendBuf, curSendPos, Pdu(cmdType, inBuf));
      JoinSlices(sendBuf[..], 0, curSendPos, curSendPos + PDU_HEAD_LEN + |inBuf|);
      curSendPos := curSendPos + (PDU_HEAD_LEN + |inBuf|);
      var left;
      left, wire := FlushSendBuf(sent);
      ok := true;
    }

    /** The result tells the caller how many bytes are still to be sent, or -1 when `Send` failed. */
    method FlushSendBuf(sent: nat) returns (left: int, wire: seq<Byte>)
      requires Valid()
      modifies this`curSendPos, sendBuf
      ensures Valid()
      ensures wire + Unsent() == old(Unsent()) && |wire| == if sent <= old(curSendPos) then sent else 0
      ensures Flushed(Unsent(), wire) == FlushBytes(old(Unsent()), sent)
      ensures left == if old(curSendPos) != 0 && sent > old(curSendPos) then -1 else curSendPos
    {
      if curSendPos == 0 {
        return 0, [];
      }
      if sent == 0 {
        return curSendPos, [];
      }
      if sent > curSendPos {
        return -1, [];
      }
      wire := sendBuf[..sent];
      curSendPos := curSendPos - sent;
      if curSendPos > 0 {
        MoveToFront(sendBuf, sent, curSendPos);
      }
      left := curSendPos;
    }
  }

  /** One direction of a connection: sender buffer, bytes in flight, receiver buffer, and the histories: all bytes
      the socket ever took, the packets accepted and delivered. */
  datatype Link = Link(unsent: seq<Byte>, flight: seq<Byte>, received: seq<Byte>,
                       wire: seq<Byte>, accepted: seq<Pdu>, delivered: seq<Pdu>)

  /** `Arrive(n)` hands the receiver a chunk of at most `n` bytes of what is in flight. */
  datatype Event = Send(p: Pdu, junk: Byte, sent: nat) | Flush(sent: nat) | Arrive(n: nat)

  function Step(l: Link, e: Event): (l': Link) {
    match e
    case Send(p, junk, sent) =>
      if !p.Fits() || |l.unsent| + PDU_HEAD_LEN + |p.data| > TCP_MAX_BUF_LEN then l else
      var f := FlushBytes(l.unsent + Frame(p, junk), sent);
      l.(unsent := f.buf, flight := l.flight + f.wire, wire := l.wire + f.wire, accepted := l.accepted + [p])
    case Flush(sent) =>
      var f := FlushBytes(l.unsent, sent);
      l.(unsent := f.buf, flight := l.flight + f.wire, wire := l.wire + f.wire)
    case Arrive(n) =>
      var k := if n <= |l.flight| then n else |l.flight|;
      var r := Parse(l.received + l.flight[..k]);
      l.(flight := l.flight[k..], received := r.rest, delivered := l.delivered + r.pdus)
  }

  function Run(l: Link, es: seq<Event>): (l': Link)
    decreases |es|
  {
    if es == [] then l else Run(Step(l, es[0]), es[1..])
  }

  const Start := Link([], [], [], [], [], [])

  /** Everything accepted is either delivered or still encoded, whole, in the three buffers. */
  ghost predicate Conserved(l: Link) {
    && l.delivered <= l.accepted
    && Parse(l.received + l.flight + l.unsent) == Parsed(l.accepted[|l.delivered|..], [])
  }

  lemma SendKeepsConserved(l: Link, p: Pdu, junk: Byte, sent: nat)
    requires Conserved(l)
    ensures Conserved(Step(l, Send(p, junk, sent)))
  {
    if p.Fits() && |l.unsent| + PDU_HEAD_LEN + |p.data| <= TCP_MAX_BUF_LEN {
      var fr := Frame(p, junk);
      var s, todo := l.received + l.flight + l.unsent, l.accepted[|l.delivered|..];
      ParseAppendFrame(s, todo, fr, p);
      Regroup(l.received, l.flight, l.unsent, fr, FlushBytes(l.unsent + fr, sent));
      assert (l.accepted + [p])[|l.delivered|..] == todo + [p];
    }
  }

  lemma Regroup(a: seq<Byte>, b: seq<Byte>, c: seq<Byte>, d: seq<Byte>, f: Flushed)
    requires f.wire + f.buf == c + d
    ensures a + (b + f.wire) + f.buf == a + b + c + d
  {
    assert a + (b + f.wire) + f.buf == a + b + (f.wire + f.buf);
    assert a + b + c + d == a + b + (c + d);
  }

  lemma FlushKeepsConserved(l: Link, sent: nat)
    requires Conserved(l)
    ensures Conserved(Step(l, Flush(sent)))
  {
    assert l.unsent + [] == l.unsent;
    Regroup(l.received, l.flight, l.unsent, [], FlushBytes(l.unsent, sent));
    assert l.received + l.flight + l.unsent + [] == l.received + l.flight + l.unsent;
  }

  lemma ArriveKeepsConserved(l: Link, n: nat)
    requires Conserved(l)
    ensures Conserved(Step(l, Arrive(n)))
  {
    var k := if n <= |l.flight| then n else |l.flight|;
    var s, t := l.received + l.flight[..k], l.flight[k..] + l.unsent;
    CutAnywhere(l.received, l.flight, l.unsent, k);
    ChunkKeepsConserved(s, t, l.accepted, l.delivered);
    CutAnywhere(Parse(s).rest, l.flight[k..], l.unsent, 0);
  }

  lemma CutAnywhere(a: seq<Byte>, b: seq<Byte>, c: seq<Byte>, k: nat)
    requires k <= |b|
    ensures a + b + c == (a + b[..k]) + (b[k..] + c)
    ensures k == 0 ==> a + b + c == a + (b + c)
  {
    assert b == b[..k] + b[k..];
  }

  lemma ChunkKeepsConserved(s: seq<Byte>, t: seq<Byte>, accepted: seq<Pdu>, delivered: seq<Pdu>)
    requires delivered <= accepted && Parse(s + t) == Parsed(accepted[|delivered|..], [])
    ensures var r := Parse(s);
            && delivered + r.pdus <= accepted
            && Parse(r.rest + t) == Parsed(accepted[|delivered + r.pdus|..], [])
  {
    ParseSplit(s, t);
    PrefixSplit(accepted, delivered, Parse(s).pdus, Parse(Parse(s).rest + t).pdus);
  }

  lemma PrefixSplit(all: seq<Pdu>, done: seq<Pdu>, now: seq<Pdu>, later: seq<Pdu>)
    requires done <= all && all[|done|..] == now + later
    ensures done + now <= all && all[|done + now|..] == later
  {
    assert all == done + (now + later);
  }

  lemma {:induction false} RunKeepsConserved(l: Link, es: seq<Event>)
    requires Conserved(l)
    ensures Conserved(Run(l, es))
    decreases |es|
  {
    if es != [] {
      match es[0] {
        case Send(p, junk, sent) => SendKeepsConserved(l, p, junk, sent);
        case Flush(sent) => FlushKeepsConserved(l, sent);
        case Arrive(n) => ArriveKeepsConserved(l, n);
      }
      RunKeepsConserved(Step(l, es[0]), es[1..]);
    }
  }

  /** Over every interleaving of sends, flushes with any socket answers, and arrivals in any chunking, the
      receiver has seen a prefix of what was accepted; nothing is missing once the buffers are drained. */
  lemma DeliveryIsExact(es: seq<Event>)
    ensures var l := Run(Start, es);
            && l.delivered <= l.accepted
            && (l.unsent == [] && l.flight == [] ==> l.delivered == l.accepted && l.received == [])
  {
    assert Start.received + Start.flight + Start.unsent == [];
    assert Start.accepted[0..] == [];
    RunKeepsConserved(Start, es);
    var l := Run(Start, es);
    if l.unsent == [] && l.flight == [] {
      assert l.received + l.flight + l.unsent == l.received;
      RunSettles(Start, es);
    }
  }

  lemma {:induction false} RunSettles(l: Link, es: seq<Event>)
    requires Incomplete(l.received)
    ensures Incomplete(Run(l, es).received)
    decreases |es|
  {
    if es != [] {
      RunSettles(Step(l, es[0]), es[1..]);
    }
  }

  // ---------------------------------------------------------------- octets accepted

  /** What the socket offered in event `e` says it took: its answer, unless that is more than it was given. */
  function Answer(l: Link, e: Event): (n: nat) {
    match e
    case Send(p, _, sent) =>
      if !p.Fits() || |l.unsent| + 8 + |p.data| > 2 * 1024 * 1024 then 0
      else if sent <= |l.unsent| + 8 + |p.data| then sent else 0
    case Flush(sent) => if sent <= |l.unsent| then sent else 0
    case Arrive(_) => 0
  }

  function Answers(l: Link, es: seq<Event>): (n: nat)
    decreases |es|
  {
    if es == [] then 0 else Answer(l, es[0]) + Answers(Step(l, es[0]), es[1..])
  }

  /** Frames as long as they were announced, for what was accepted. */
  function Octets(ps: seq<Pdu>): (n: nat) {
    if ps == [] then 0 else Octets(ps[..|ps| - 1]) + 8 + |ps[|ps| - 1].data|
  }

  /** The bytes in flight are the last ones taken, and taken and unsent bytes number what was accepted. */
  ghost predicate Counted(l: Link) {
    && |l.flight| <= |l.wire| && l.wire[|l.wire| - |l.flight|..] == l.flight
    && |l.wire| + |l.unsent| == Octets(l.accepted)
  }

  /** More bytes go out: they are the last ones taken and the last ones in flight. */
  lemma FlightGrows(wire: seq<Byte>, flight: seq<Byte>, more: seq<Byte>)
    requires |flight| <= |wire| && wire[|wire| - |flight|..] == flight
    ensures var w, f := wire + more, flight + more;
            |f| <= |w| && w[|w| - |f|..] == f
  {
  }

  lemma OctetsSnoc(ps: seq<Pdu>, p: Pdu)
    ensures Octets(ps + [p]) == Octets(ps) + 8 + |p.data|
  {
    assert (ps + [p])[..|ps|] == ps;
  }

  lemma StepCounts(l: Link, e: Event)
    requires Counted(l)
    ensures Counted(Step(l, e)) && |Step(l, e).wire| == |l.wire| + Answer(l, e) && l.wire <= Step(l, e).wire
  {
    match e
    case Send(p, junk, sent) =>
      if p.Fits() && |l.unsent| + PDU_HEAD_LEN + |p.data| <= TCP_MAX_BUF_LEN {
        FlightGrows(l.wire, l.flight, FlushBytes(l.unsent + Frame(p, junk), sent).wire);
        OctetsSnoc(l.accepted, p);
      }
    case Flush(sent) => FlightGrows(l.wire, l.flight, FlushBytes(l.unsent, sent).wire);
    case Arrive(n) =>
  }

  /** In every run the socket has been given exactly as many octets as its answers say, the frames accepted less
      what is still unsent, and nothing that was taken is changed afterwards. */
  lemma {:induction false} RunCounts(l: Link, es: seq<Event>)
    requires Counted(l)
    ensures Counted(Run(l, es)) && |Run(l, es).wire| == |l.wire| + Answers(l, es) && l.wire <= Run(l, es).wire
    decreases |es|
  {
    if es != [] {
      StepCounts(l, es[0]);
      RunCounts(Step(l, es[0]), es[1..]);
    }
  }

  // ---------------------------------------------------------------- the machine and the code

  /** A sender and a receiver with a socket between them. Every operation is a step of the machine above. */
  class Connection {
    const sender: TcpParsePdu
    const receiver: TcpParsePdu
    var flight: seq<Byte>
    ghost var wire: seq<Byte>
    ghost var accepted: seq<Pdu>
    ghost var delivered: seq<Pdu>

    ghost predicate Valid()
      reads this, sender, receiver, receiver.recvBuf
    {
      sender != receiver && sender.Valid() && receiver.Settled() && sender.sendBuf != receiver.recvBuf
    }

    ghost function State(): (l: Link)
      requires Valid()
      reads this, sender, sender.sendBuf, receiver, receiver.recvBuf
    {
      Link(sender.Unsent(), flight, receiver.Received(), wire, accepted, delivered)
    }

    constructor ()
      ensures Valid() && State() == Start
      ensures fresh(sender) && fresh(sender.sendBuf) && fresh(receiver) && fresh(receiver.recvBuf)
    {
      sender := new TcpParsePdu();
      receiver := new TcpParsePdu();
      flight, wire, accepted, delivered := [], [], [], [];
    }

    method Send(p: Pdu, sent: nat) returns (ok: bool, ghost junk: Byte)
      requires Valid() && p.Fits()
      modifies this, sender`curSendPos, sender.sendBuf
      ensures Valid() && State() == Step(old(State()), Event.Send(p, junk, sent))
      ensures ok <==> accepted == old(accepted) + [p]
    {
      junk := if sender.curSendPos + 3 < sender.sendBuf.Length then sender.sendBuf[sender.curSendPos + 3] else 0;
      var w;
      ok, w := sender.SendTcpPdu(p.data, p.cmd, sent);
      if ok {
        flight, wire, accepted := flight + w, wire + w, accepted + [p];
      }
    }

    method Flush(sent: nat)
      requires Valid()
      modifies this, sender`curSendPos, sender.sendBuf
      ensures Valid() && State() == Step(old(State()), Event.Flush(sent))
    {
      var left, w := sender.FlushSendBuf(sent);
      flight, wire := flight + w, wire + w;
    }

    /** A read hands over at most 65535 bytes. */
    method Arrive(n: nat)
      requires Valid() && n < 0x1_0000
      modifies this, receiver`curPos, receiver.recvBuf
      ensures Valid() && State() == Step(old(State()), Event.Arrive(n))
    {
      var k := if n <= |flight| then n else |flight|;
      var ok, ps := receiver.ParseTcpPdu(flight[..k]);
      flight := flight[k..];
      delivered := delivered + ps;
    }
  }
}
