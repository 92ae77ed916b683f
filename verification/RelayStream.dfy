/**
  The relay's TCP channel (relayserver/Channel.cc): the receive side that parses and dispatches frames out of
  a 15000-byte buffer, and the send side that frames queued packets into a 1500-byte buffer.
 */
module RelayStream {
  import opened Bytes
  import opened Framing
  import opened Wrappers

  const BUF_SIZE := 15000
  const AUTH_REQ := 101
  const RTP_RTCP_PACKET := 104

  /** The (un)serialisers of the packet bodies, which the relay only calls: whether an authentication request
      unserialises, and the body an RTP/RTCP packet serialises to. */
  datatype Codec = Codec(authOk: seq<Byte> -> bool, rtpBody: Packet -> Option<Payload>)

  /** The contents of a `DataBuffer`, and what fits behind a header in one. */
  type Packet = d: seq<Byte> | |d| <= PACK_MAX_LEN
  type Payload = b: seq<Byte> | |b| <= PACK_MAX_LEN - PDU_HEAD_LEN

  // ---------------------------------------------------------------- receiving

  /** `parsePduHead` on a buffer that holds a whole header. */
  predicate HeadAccepted(s: seq<Byte>)
    requires |s| >= PDU_HEAD_LEN
  {
    IsOwnProtocol(s) && s[2] == 0 && U16(s, 4) <= PACK_MAX_LEN - PDU_HEAD_LEN
  }

  function FirstPdu(s: seq<Byte>): (p: Pdu)
    requires !Incomplete(s)
    ensures PDU_HEAD_LEN + |p.data| == PDU_HEAD_LEN + U16(s, 4) <= |s|
  {
    var n := PDU_HEAD_LEN + U16(s, 4);
    Pdu(U16(s, 6), s[PDU_HEAD_LEN..n])
  }

  predicate Unserialises(c: Codec, p: Pdu) {
    p.cmd == AUTH_REQ ==> c.authOk(p.data)
  }

  /** What the relay dispatches out of a buffer, and what it keeps: a bad header or a bad authentication body
      throws the whole buffer away. */
  function Dispatch(c: Codec, s: seq<Byte>): (r: Parsed)
    ensures |r.rest| < PACK_MAX_LEN
    ensures |r.rest| <= |s|
  {
    if |s| < PDU_HEAD_LEN then Parsed([], s)
    else if !HeadAccepted(s) then Parsed([], [])
    else if Incomplete(s) then Parsed([], s)
    else
      var p := FirstPdu(s);
      if !Unserialises(c, p) then Parsed([], [])
      else
        var r := Dispatch(c, s[PDU_HEAD_LEN + |p.data|..]);
        Parsed([p] + r.pdus, r.rest)
  }

  /** What the relay does with the first frame: a rejected one takes the whole buffer along, an incomplete one
      waits, and any other is dispatched. */
  lemma FirstFrame(c: Codec, s: seq<Byte>)
    requires |s| >= PDU_HEAD_LEN
    ensures !HeadAccepted(s) ==> DispatchFrom(c, s, [], s[|s|..])
    ensures HeadAccepted(s) && Incomplete(s) ==> Dispatch(c, s) == Parsed([], s)
    ensures HeadAccepted(s) && !Incomplete(s) && !Unserialises(c, FirstPdu(s)) ==> DispatchFrom(c, s, [], s[|s|..])
    ensures HeadAccepted(s) && !Incomplete(s) && Unserialises(c, FirstPdu(s)) ==>
              DispatchFrom(c, s, [FirstPdu(s)], s[PDU_HEAD_LEN + U16(s, 4)..])
  {
    assert Dispatch(c, s[|s|..]) == Parsed([], []);
  }

  /** The same in octets, with the announced length and command. A buffer that does not start with "SR" and version 0,
      or whose first frame announces more than 1492 octets, is thrown away, and so is one whose first frame is a
      complete authentication request (command 101) that does not unserialise. An incomplete frame waits; any other
      is dispatched, and the rest is treated in the same way. */
  lemma DispatchByOctets(c: Codec, s: seq<Byte>, len: nat, cmd: nat)
    requires |s| >= 8
    requires len == (s[4] as int) + 256 * (s[5] as int) && cmd == (s[6] as int) + 256 * (s[7] as int)
    ensures var bad := s[0] != 'S' as int || s[1] != 'R' as int || s[2] != 0 || len > 1492;
            && (bad ==> Dispatch(c, s) == Parsed([], []))
            && (!bad && |s| < 8 + len ==> Dispatch(c, s) == Parsed([], s))
            && (!bad && |s| >= 8 + len && cmd == 101 && !c.authOk(s[8..8 + len]) ==> Dispatch(c, s) == Parsed([], []))
            && (!bad && |s| >= 8 + len && (cmd != 101 || c.authOk(s[8..8 + len])) ==>
                  DispatchFrom(c, s, [Pdu(cmd, s[8..8 + len])], s[8 + len..]))
  {
    assert U16(s, 4) == len && U16(s, 6) == cmd;
    FirstFrame(c, s);
    RejectedIsDropped(c, s);
  }

  /** A buffer too short for a header waits. */
  lemma ShortWaits(c: Codec, s: seq<Byte>)
    requires |s| < 8
    ensures Dispatch(c, s) == Parsed([], s)
  {
  }

  lemma RejectedIsDropped(c: Codec, s: seq<Byte>)
    requires |s| >= PDU_HEAD_LEN
    ensures !HeadAccepted(s) || (!Incomplete(s) && !Unserialises(c, FirstPdu(s))) ==> Dispatch(c, s) == Parsed([], [])
  {
  }

  lemma ForeignIsDropped(c: Codec, s: seq<Byte>)
    requires |s| >= PDU_HEAD_LEN && !IsOwnProtocol(s)
    ensures Dispatch(c, s) == Parsed([], [])
  {
  }

  /** With `done` dispatched and `s` left, `all` has been treated as `Dispatch` says. */
  ghost predicate DispatchFrom(c: Codec, all: seq<Byte>, done: seq<Pdu>, s: seq<Byte>) {
    Dispatch(c, all) == Parsed(done + Dispatch(c, s).pdus, Dispatch(c, s).rest)
  }

  lemma DispatchFromStep(c: Codec, all: seq<Byte>, done: seq<Pdu>, s: seq<Byte>, n: nat, now: seq<Pdu>)
    requires DispatchFrom(c, all, done, s) && n <= |s|
    requires DispatchFrom(c, s, now, s[n..])
    ensures DispatchFrom(c, all, done + now, s[n..])
  {
    var r := Dispatch(c, s[n..]);
    assert done + (now + r.pdus) == done + now + r.pdus;
  }

  /** Once what is left yields nothing more, the account is complete. */
  lemma DispatchFromEnd(c: Codec, all: seq<Byte>, done: seq<Pdu>, s: seq<Byte>, rest: seq<Byte>)
    requires DispatchFrom(c, all, done, s) && Dispatch(c, s) == Parsed([], rest)
    ensures Parsed(done, rest) == Dispatch(c, all)
  {
    assert done + [] == done;
  }

  lemma DispatchFromStart(c: Codec, all: seq<Byte>)
    ensures DispatchFrom(c, all, [], all)
  {
    assert [] + Dispatch(c, all).pdus == Dispatch(c, all).pdus;
  }

  /** A buffer the relay has no reason to throw away: every header in it is acceptable. */
  predicate Good(c: Codec, s: seq<Byte>) {
    |s| >= PDU_HEAD_LEN ==>
      && HeadAccepted(s)
      && (!Incomplete(s) ==>
            var p := FirstPdu(s);
            Unserialises(c, p) && Good(c, s[PDU_HEAD_LEN + |p.data|..]))
  }

  /** The relay parses as the client does exactly on good buffers. */
  lemma {:induction false} DispatchIsParseIffGood(c: Codec, s: seq<Byte>)
    ensures Dispatch(c, s) == Parse(s) <==> Good(c, s)
    decreases |s|
  {
    if |s| >= PDU_HEAD_LEN && HeadAccepted(s) && !Incomplete(s) {
      var p := FirstPdu(s);
      var t := s[PDU_HEAD_LEN + |p.data|..];
      DispatchIsParseIffGood(c, t);
      if Unserialises(c, p) {
        assert ([p] + Dispatch(c, t).pdus)[1..] == Dispatch(c, t).pdus;
        assert ([p] + Parse(t).pdus)[1..] == Parse(t).pdus;
      }
    }
  }

  /** Both parts of a good stream are good: what has arrived, and the remainder with what is still to come. */
  lemma {:induction false} GoodSplit(c: Codec, s: seq<Byte>, t: seq<Byte>)
    requires Good(c, s + t)
    ensures Good(c, s)
    ensures Good(c, Parse(s).rest + t)
    decreases |s|
  {
    var u := s + t;
    if |s| >= PDU_HEAD_LEN {
      assert U16(u, 4) == U16(s, 4) && U16(u, 6) == U16(s, 6);
      assert HeadAccepted(s);
      if !Incomplete(s) {
        var n := PDU_HEAD_LEN + U16(s, 4);
        assert FirstPdu(u) == FirstPdu(s) by {
          assert u[PDU_HEAD_LEN..n] == s[PDU_HEAD_LEN..n];
        }
        assert u[n..] == s[n..] + t;
        GoodSplit(c, s[n..], t);
        assert Parse(s).rest == Parse(s[n..]).rest;
      }
    }
  }

  /** Frames the relay accepts: its own header, a payload within one packet, a body that unserialises. */
  ghost predicate AcceptableFrames(c: Codec, fs: seq<seq<Byte>>, ps: seq<Pdu>) {
    && |fs| == |ps|
    && forall i | 0 <= i < |fs| ::
         IsFrame(fs[i], ps[i]) && |ps[i].data| <= PACK_MAX_LEN - PDU_HEAD_LEN && Unserialises(c, ps[i])
  }

  lemma {:induction false} FramesAreGood(c: Codec, fs: seq<seq<Byte>>, ps: seq<Pdu>)
    requires AcceptableFrames(c, fs, ps)
    ensures Good(c, Flatten(fs))
  {
    if fs != [] {
      FramesAreGood(c, fs[1..], ps[1..]);
      GoodCons(c, fs[0], ps[0], Flatten(fs[1..]));
    }
  }

  lemma GoodCons(c: Codec, f: seq<Byte>, p: Pdu, t: seq<Byte>)
    requires IsFrame(f, p) && |p.data| <= PACK_MAX_LEN - PDU_HEAD_LEN && Unserialises(c, p)
    requires Good(c, t)
    ensures Good(c, f + t)
  {
    var u := f + t;
    assert U16(u, 4) == U16(f, 4) && U16(u, 6) == U16(f, 6);
    assert u[PDU_HEAD_LEN..|f|] == p.data;
    assert u[|f|..] == t;
    assert FirstPdu(u) == p;
  }

  /** The buffer over a run of received chunks. */
  function Feed(c: Codec, rest: seq<Byte>, chunks: seq<seq<Byte>>): (r: Parsed)
    decreases |chunks|
  {
    if chunks == [] then Parsed([], rest)
    else
      var now := Dispatch(c, rest + chunks[0]);
      var later := Feed(c, now.rest, chunks[1..]);
      Parsed(now.pdus + later.pdus, later.rest)
  }

  lemma {:induction false} FeedIsParse(c: Codec, rest: seq<Byte>, chunks: seq<seq<Byte>>)
    requires Good(c, rest + Flatten(chunks)) && Incomplete(rest)
    ensures Feed(c, rest, chunks) == Parse(rest + Flatten(chunks))
    decreases |chunks|
  {
    if chunks == [] {
      assert rest + Flatten(chunks) == rest;
    } else {
      var s, t := rest + chunks[0], Flatten(chunks[1..]);
      assert rest + Flatten(chunks) == s + t;
      GoodSplit(c, s, t);
      DispatchIsParseIffGood(c, s);
      FeedIsParse(c, Parse(s).rest, chunks[1..]);
      ParseSplit(s, t);
    }
  }

  lemma PrefixIsGood(c: Codec, s: seq<Byte>, all: seq<Byte>)
    requires Good(c, all) && s <= all
    ensures Good(c, s)
  {
    assert s + all[|s|..] == all;
    GoodSplit(c, s, all[|s|..]);
  }

  lemma PrefixOfFrames(s: seq<Byte>, fs: seq<seq<Byte>>, ps: seq<Pdu>)
    requires AllAnnounce(fs, ps) && s <= Flatten(fs)
    ensures Parse(s).pdus <= ps
    ensures s == Flatten(fs) ==> Parse(s) == Parsed(ps, [])
  {
    ParseFrames(fs, ps);
    ParsePrefix(s, Flatten(fs));
  }

  lemma FedFromEmpty(c: Codec, chunks: seq<seq<Byte>>, s: seq<Byte>)
    requires s == Flatten(chunks) && Good(c, s)
    ensures Feed(c, [], chunks) == Parse(s)
  {
    assert [] + s == s;
    FeedIsParse(c, [], chunks);
  }

  /** However a stream of acceptable frames is cut into chunks, the relay dispatches exactly the commands whose
      frames are complete, in order, and all of them once everything has arrived. */
  lemma RelayDispatchIsExact(c: Codec, fs: seq<seq<Byte>>, ps: seq<Pdu>, chunks: seq<seq<Byte>>)
    requires AcceptableFrames(c, fs, ps)
    requires Flatten(chunks) <= Flatten(fs)
    ensures Feed(c, [], chunks) == Parse(Flatten(chunks))
    ensures Feed(c, [], chunks).pdus <= ps
    ensures Flatten(chunks) == Flatten(fs) ==> Feed(c, [], chunks) == Parsed(ps, [])
  {
    var s, all := Flatten(chunks), Flatten(fs);
    assert Feed(c, [], chunks) == Parse(s) by {
      FramesAreGood(c, fs, ps);
      PrefixIsGood(c, s, all);
      FedFromEmpty(c, chunks, s);
    }
    assert AllAnnounce(fs, ps);
    PrefixOfFrames(s, fs, ps);
  }

  // ---------------------------------------------------------------- sending

  /** `f` is what goes out for the queued packet `d`: an own-protocol packet as it is, any other wrapped. */
  predicate IsWireForm(c: Codec, f: seq<Byte>, d: Packet) {
    if IsOwnProtocol(d) then f == d
    else
      && c.rtpBody(d).Some?
      && IsFrame(f, Pdu(RTP_RTCP_PACKET, c.rtpBody(d).value))
  }

  ghost predicate WireForms(c: Codec, fs: seq<seq<Byte>>, ds: seq<Packet>) {
    |fs| == |ds| && forall i | 0 <= i < |fs| :: IsWireForm(c, fs[i], ds[i])
  }

  /** In octets: what starts with "SR" goes out as it is, anything else behind a header of command 104. */
  lemma WireOctets(c: Codec, f: seq<Byte>, d: Packet)
    ensures IsWireForm(c, f, d) <==>
            if |d| >= 8 && d[0] == 'S' as int && d[1] == 'R' as int then f == d
            else
              && c.rtpBody(d).Some?
              && var body := c.rtpBody(d).value;
                 && |f| >= 8 && f[..3] == ['S' as int, 'R' as int, 0] && f[8..] == body
                 && (f[4] as int) + 256 * (f[5] as int) == |body|
                 && (f[6] as int) + 256 * (f[7] as int) == 104
  {
    if |f| >= 8 {
      assert f[..3] == [f[0], f[1], f[2]];
    }
  }

  lemma LoadedFrame(was: seq<Byte>, fs: seq<seq<Byte>>, f: seq<Byte>)
    ensures was + Flatten(fs + [f]) == was + Flatten(fs) + f
  {
    FlattenSnoc(fs, f);
    assert was + (Flatten(fs) + f) == was + Flatten(fs) + f;
  }

  /** Bytes that move from the front of a slice to the end of what was taken. */
  lemma Taken(wire: seq<Byte>, buf: seq<Byte>, i: nat, j: nat, k: nat)
    requires i <= j <= k <= |buf|
    ensures wire + buf[i..k] == wire + buf[i..j] + buf[j..k]
  {
    JoinSlices(buf, i, j, k);
    assert wire + (buf[i..j] + buf[j..k]) == wire + buf[i..j] + buf[j..k];
  }

  lemma WireFormsSnoc(c: Codec, fs: seq<seq<Byte>>, f: seq<Byte>, ds: seq<Packet>)
    requires |fs| < |ds| && WireForms(c, fs, ds[..|fs|]) && IsWireForm(c, f, ds[|fs|])
    ensures WireForms(c, fs + [f], ds[..|fs| + 1])
  {
    assert ds[..|fs| + 1] == ds[..|fs|] + [ds[|fs|]];
  }

  datatype RecvResult = Data(chunk: seq<Byte>) | Eof | RecvError(retry: bool)

  /** What a call of `Send` answers: up to `n` bytes taken, a transient error, or EPIPE/ECONNRESET. */
  datatype SendResult = Sent(n: nat) | Busy | Broken

  function Sum(ns: seq<nat>): (n: nat) {
    if ns == [] then 0 else ns[0] + Sum(ns[1..])
  }

  function Lens(fs: seq<seq<Byte>>): (ns: seq<nat>) {
    seq(|fs|, i requires 0 <= i < |fs| => |fs[i]|)
  }

  /** How many bytes each answer of the socket takes, when `left` bytes are unsent and buffers of `lens` bytes can be
      loaded behind them: as many as it says, but no more than the buffer at hand holds, until the socket is busy or
      broken or there is nothing more to send. */
  function Took(left: nat, lens: seq<nat>, results: seq<SendResult>): (took: seq<nat>)
    decreases |results|, |lens|
  {
    if left == 0 then
      if lens == [] then [] else Took(lens[0], lens[1..], results)
    else if results == [] || !results[0].Sent? then []
    else
      var k := Least(results[0].n, left);
      [k] + Took(left - k, lens, results[1..])
  }

  /** No answer takes more than it says, none that says something takes nothing, and the answers stop only where the
      socket does or when all bytes are taken. */
  lemma {:induction false} TookBounds(left: nat, lens: seq<nat>, results: seq<SendResult>)
    ensures var took := Took(left, lens, results);
            && |took| <= |results|
            && (forall i | 0 <= i < |took| ::
                  results[i].Sent? && took[i] <= results[i].n && (results[i].n > 0 ==> took[i] > 0))
            && Sum(took) <= left + Sum(lens)
            && (Sum(took) < left + Sum(lens) ==> |took| == |results| || !results[|took|].Sent?)
    decreases |results|, |lens|
  {
    if left == 0 {
      if lens != [] {
        TookBounds(lens[0], lens[1..], results);
      }
    } else if results != [] && results[0].Sent? {
      var k := Least(results[0].n, left);
      TookBounds(left - k, lens, results[1..]);
      var more := Took(left - k, lens, results[1..]);
      assert ([k] + more)[1..] == more;
    }
  }

  /** Answers that leave something of the buffer at hand are taken at their word. */
  lemma {:induction false} PartialSends(left: nat, lens: seq<nat>, ns: seq<nat>)
    requires Sum(ns) < left
    ensures Took(left, lens, seq(|ns|, i requires 0 <= i < |ns| => Sent(ns[i]))) == ns
    decreases |ns|
  {
    var results := seq(|ns|, i requires 0 <= i < |ns| => Sent(ns[i]));
    if ns != [] {
      assert results[1..] == seq(|ns[1..]|, i requires 0 <= i < |ns[1..]| => Sent(ns[1..][i]));
      PartialSends(left - ns[0], lens, ns[1..]);
    }
  }

  /** If `more` is loaded later on, the answers take `took`, and then what those from `i` on take of the `left` bytes
      unsent and of `more`. */
  ghost predicate BookedFor(
    was: nat, lens: seq<nat>, results: seq<SendResult>, took: seq<nat>, left: nat, i: nat, more: seq<nat>)
    requires i <= |results|
  {
    Took(was, lens + more, results) == took + Took(left, more, results[i..])
  }

  /** So far the answers before `i` have taken `took`, and `left` bytes are unsent. */
  ghost predicate Booked(was: nat, lens: seq<nat>, results: seq<SendResult>, took: seq<nat>, left: nat, i: nat) {
    i <= |results| && forall more :: BookedFor(was, lens, results, took, left, i, more)
  }

  lemma BookedStart(was: nat, results: seq<SendResult>)
    ensures Booked(was, [], results, [], was, 0)
  {
    assert results[0..] == results;
    forall more
      ensures BookedFor(was, [], results, [], was, 0, more)
    {
      assert [] + more == more;
    }
  }

  lemma BookedLoad(was: nat, lens: seq<nat>, results: seq<SendResult>, took: seq<nat>, n: nat, i: nat)
    requires Booked(was, lens, results, took, 0, i)
    ensures Booked(was, lens + [n], results, took, n, i)
  {
    forall more
      ensures BookedFor(was, lens + [n], results, took, n, i, more)
    {
      assert lens + [n] + more == lens + ([n] + more);
      assert ([n] + more)[1..] == more;
      assert BookedFor(was, lens, results, took, 0, i, [n] + more);
    }
  }

  function Least(n: nat, left: nat): (k: nat)
    ensures k <= n && k <= left && (k == n || k == left)
  {
    if n <= left then n else left
  }

  lemma TookStep(left: nat, lens: seq<nat>, results: seq<SendResult>)
    requires left > 0 && results != [] && results[0].Sent?
    ensures var k := Least(results[0].n, left);
            Took(left, lens, results) == [k] + Took(left - k, lens, results[1..])
  {
  }

  lemma BookedTake(was: nat, lens: seq<nat>, results: seq<SendResult>, took: seq<nat>, left: nat, i: nat)
    requires Booked(was, lens, results, took, left, i) && left > 0 && i < |results| && results[i].Sent?
    ensures var k := Least(results[i].n, left);
            Booked(was, lens, results, took + [k], left - k, i + 1)
  {
    var k := Least(results[i].n, left);
    var took', left', j := took + [k], left - k, i + 1;
    forall more
      ensures BookedFor(was, lens, results, took', left', j, more)
    {
      assert BookedFor(was, lens, results, took, left, i, more);
      TookAt(left, more, results, i);
      Associate(took, k, Took(left', more, results[j..]));
    }
  }

  lemma TookAt(left: nat, lens: seq<nat>, results: seq<SendResult>, i: nat)
    requires left > 0 && i < |results| && results[i].Sent?
    ensures var k := Least(results[i].n, left);
            Took(left, lens, results[i..]) == [k] + Took(left - k, lens, results[i + 1..])
  {
    var rs := results[i..];
    assert rs[1..] == results[i + 1..];
    TookStep(left, lens, rs);
  }

  lemma Associate(a: seq<nat>, k: nat, b: seq<nat>)
    ensures a + ([k] + b) == a + [k] + b
  {
  }

  lemma BookedEnd(was: nat, lens: seq<nat>, results: seq<SendResult>, took: seq<nat>, left: nat, i: nat)
    requires Booked(was, lens, results, took, left, i)
    requires left == 0 || i == |results| || !results[i].Sent?
    ensures Took(was, lens, results) == took
  {
    assert BookedFor(was, lens, results, took, left, i, []);
    assert lens + [] == lens && Took(left, [], results[i..]) == [] && took + [] == took;
  }

  lemma {:induction false} SumSnoc(ns: seq<nat>, n: nat)
    ensures Sum(ns + [n]) == Sum(ns) + n
  {
    if ns == [] {
      assert ns + [n] == [n] && [n][1..] == [];
    } else {
      assert (ns + [n])[1..] == ns[1..] + [n];
      SumSnoc(ns[1..], n);
    }
  }

  /** Why `handleSend` stopped. */
  datatype Outcome = Drained | Blocked | Disconnected | PackFailed

  /** The send side with its histories: packets ever queued, frames ever loaded, bytes ever taken, and how many
      the socket ever answered that it took. */
  datatype Sender = Sender(queue: seq<Packet>, unsent: seq<Byte>,
                           queued: seq<Packet>, frames: seq<seq<Byte>>, wire: seq<Byte>, answered: nat)

  const IDLE := Sender([], [], [], [], [], 0)

  ghost predicate QueueStep(s: Sender, s': Sender, d: Packet) {
    s' == s.(queue := s.queue + [d], queued := s.queued + [d])
  }

  /** A write event that drains or blocks, with the answers of the socket. */
  ghost predicate WriteStep(c: Codec, s: Sender, s': Sender, wire: seq<Byte>, fs: seq<seq<Byte>>,
                            results: seq<SendResult>)
  {
    var n := Sum(Took(|s.unsent|, Lens(fs), results));
    && |fs| <= |s.queue| && WireForms(c, fs, s.queue[..|fs|])
    && wire + s'.unsent == s.unsent + Flatten(fs) && |wire| == n
    && s' == Sender(s.queue[|fs|..], s'.unsent, s.queued, s.frames + fs, s.wire + wire, s.answered + n)
  }

  ghost predicate SenderStep(c: Codec, s: Sender, s': Sender) {
    (exists d :: QueueStep(s, s', d)) || (exists wire, fs, results :: WriteStep(c, s, s', wire, fs, results))
  }

  ghost predicate SenderRun(c: Codec, t: seq<Sender>) {
    && |t| > 0
    && t[0] == IDLE
    && forall i | 0 < i < |t| :: SenderStep(c, t[i - 1], t[i])
  }

  /** Bytes taken by the socket, then the unsent part, then the packets still queued: together they are all the
      packets ever queued, framed, in order. */
  ghost predicate SenderConserves(c: Codec, s: Sender) {
    && s.wire + s.unsent == Flatten(s.frames) && |s.wire| == s.answered
    && |s.frames| <= |s.queued|
    && WireForms(c, s.frames, s.queued[..|s.frames|])
    && s.queue == s.queued[|s.frames|..]
  }

  /** The socket took what its answers say, and the loop stopped at the first answer that is none, or for want of
      bytes. */
  ghost predicate AsAnswered(results: seq<SendResult>, took: seq<nat>, wire: seq<Byte>, outcome: Outcome) {
    && |wire| == Sum(took) && |took| <= |results|
    && (outcome.Blocked? ==> |took| == |results| || results[|took|].Busy?)
    && (outcome.Disconnected? ==> |took| < |results| && results[|took|].Broken?)
  }

  class TCPChannel {
    const codec: Codec
    const recvBuf: array<Byte>
    var leftRecv: nat
    const sendBuf: array<Byte>
    var leftSend: nat
    var queue: seq<Packet>
    var open: bool
    /** Packets ever queued, frames ever loaded, bytes ever taken by the socket, and how many it answered. */
    ghost var queued: seq<Packet>
    ghost var loaded: seq<seq<Byte>>
    ghost var taken: seq<Byte>
    ghost var answered: nat

    ghost predicate Buffers()
      reads this
    {
      && recvBuf.Length == BUF_SIZE
      && sendBuf.Length == PACK_MAX_LEN
      && recvBuf != sendBuf
      && leftRecv <= BUF_SIZE
      && leftSend <= PACK_MAX_LEN
    }

    /** Between events the residue is under one packet, so `Recv` always has room to ask for. */
    ghost predicate Valid()
      reads this
    {
      Buffers() && leftRecv < PACK_MAX_LEN
    }

    ghost function Residue(): (s: seq<Byte>)
      requires Buffers()
      reads this, recvBuf
    {
      recvBuf[..leftRecv]
    }

    ghost function Unsent(): (s: seq<Byte>)
      requires Buffers()
      reads this, sendBuf
    {
      sendBuf[..leftSend]
    }

    /** The send side with its histories. */
    ghost function Sending(): (s: Sender)
      requires Buffers()
      reads this, sendBuf
    {
      Sender(queue, Unsent(), queued, loaded, taken, answered)
    }

    constructor (c: Codec)
      ensures Valid() && codec == c && open
      ensures Residue() == [] && Sending() == IDLE && recvBuf.Length == 15000 && sendBuf.Length == 1500
      ensures fresh(recvBuf) && fresh(sendBuf)
    {
      codec := c;
      recvBuf := new Byte[BUF_SIZE](_ => 0);
      sendBuf := new Byte[PACK_MAX_LEN](_ => 0);
      leftRecv, leftSend, queue, open := 0, 0, [], true;
      queued, loaded, taken, answered := [], [], [], 0;
    }

    /** `handlePduPack` on the bytes from `start`: how many it consumes (0: wait for more) and what it
        dispatches. A rejected header, of another protocol too, or a rejected body consumes all of them. */
    method HandlePduPack(start: nat) returns (processLen: nat, dispatched: seq<Pdu>)
      requires Buffers() && start + leftRecv <= BUF_SIZE && leftRecv >= PDU_HEAD_LEN
      ensures processLen <= leftRecv
      ensures var s := From(start);
              if processLen == 0 then dispatched == [] && Dispatch(codec, s) == Parsed([], s)
              else DispatchFrom(codec, s, dispatched, s[processLen..])
    {
      var s := recvBuf[start..start + leftRecv];
      FirstFrame(codec, s);
      if !HeadAccepted(s) {
        return leftRecv, [];
      }
      if Incomplete(s) {
        return 0, [];
      }
      var p := FirstPdu(s);
      if !Unserialises(codec, p) {
        return leftRecv, [];
      }
      return PDU_HEAD_LEN + |p.data|, [p];
    }

    method ProcessData() returns (dispatched: seq<Pdu>)
      requires Buffers()
      modifies this`leftRecv, recvBuf
      ensures Valid()
      ensures Parsed(dispatched, Residue()) == Dispatch(codec, old(Residue()))
    {
      var start;
      start, dispatched := ProcessLoop();
      if leftRecv != 0 && start != 0 {
        MoveToFront(recvBuf, start, leftRecv);
      }
    }

    /** The bytes still to be processed, which start at `start`. */
    ghost function From(start: nat): (s: seq<Byte>)
      requires Buffers() && start + leftRecv <= BUF_SIZE
      reads this, recvBuf
    {
      recvBuf[start..start + leftRecv]
    }

    /** The loop of `processData`; the unconsumed bytes are left at `start`. */
    method ProcessLoop() returns (start: nat, dispatched: seq<Pdu>)
      requires Buffers()
      modifies this`leftRecv
      ensures Buffers() && start + leftRecv <= BUF_SIZE
      ensures Parsed(dispatched, From(start)) == Dispatch(codec, old(Residue()))
    {
      start, dispatched := 0, [];
      ghost var all := Residue();
      ghost var s := all;
      DispatchFromStart(codec, all);
      while leftRecv >= PDU_HEAD_LEN
        invariant start + leftRecv <= BUF_SIZE && s == From(start)
        invariant DispatchFrom(codec, all, dispatched, s)
        decreases leftRecv
      {
        var more, now;
        more, start, now := ProcessOne(start);
        if !more {
          DispatchFromEnd(codec, all, dispatched, s, From(start));
          return;
        }
        DispatchFromStep(codec, all, dispatched, s, |s| - leftRecv, now);
        dispatched := dispatched + now;
        s := From(start);
      }
      ShortWaits(codec, s);
      DispatchFromEnd(codec, all, dispatched, s, s);
    }

    /** One turn of the loop. Foreign data empties the buffer and ends the loop, an incomplete frame ends it. */
    method ProcessOne(start: nat) returns (more: bool, start': nat, now: seq<Pdu>)
      requires Buffers() && start + leftRecv <= BUF_SIZE && leftRecv >= PDU_HEAD_LEN
      modifies this`leftRecv
      ensures leftRecv <= old(leftRecv) && start' + leftRecv <= BUF_SIZE
      ensures more ==>
                && leftRecv < old(leftRecv) && From(start') == old(From(start))[old(leftRecv) - leftRecv..]
                && DispatchFrom(codec, old(From(start)), now, From(start'))
      ensures !more ==> now == [] && Dispatch(codec, old(From(start))) == Parsed([], From(start'))
    {
      ghost var s := From(start);
      assert s[0] == recvBuf[start] && s[1] == recvBuf[start + 1];
      if !(recvBuf[start] == 83 && recvBuf[start + 1] == 82) {
        ForeignIsDropped(codec, s);
        leftRecv := 0;
        return false, start, [];
      }
      start' := start;
      var processLen;
      processLen, now := HandlePduPack(start);
      more := processLen != 0;
      if more {
        start' := Consume(start, processLen);
      }
    }

    method Consume(start: nat, n: nat) returns (start': nat)
      requires Buffers() && start + leftRecv <= BUF_SIZE && n <= leftRecv
      modifies this`leftRecv
      ensures Buffers() && leftRecv == old(leftRecv) - n && start' + leftRecv <= BUF_SIZE
      ensures From(start') == old(From(start))[n..]
    {
      leftRecv := leftRecv - n;
      start' := start + n;
      SliceTail(recvBuf[..], start, start', start' + leftRecv);
    }

    /** One read event. The socket is asked for `BUF_SIZE - leftRecv` bytes, which is never zero, so `Eof`
        always means that the peer closed. */
    method HandleRecv(result: RecvResult) returns (dispatched: seq<Pdu>)
      requires Valid()
      requires result.Data? ==> 0 < |result.chunk| <= BUF_SIZE - leftRecv
      modifies this`leftRecv, this`open, recvBuf
      ensures Valid()
      ensures BUF_SIZE - old(leftRecv) > 0
      ensures match result
              case Data(chunk) =>
                && Parsed(dispatched, Residue()) == Dispatch(codec, old(Residue()) + chunk)
                && open == old(open)
              case Eof => dispatched == [] && Residue() == [] && !open
              case RecvError(retry) =>
                && dispatched == []
                && (retry ==> Residue() == old(Residue()) && open == old(open))
                && (!retry ==> Residue() == [] && !open)
    {
      dispatched := [];
      match result
      case Data(chunk) =>
        Store(recvBuf, leftRecv, chunk);
        JoinSlices(recvBuf[..], 0, leftRecv, leftRecv + |chunk|);
        leftRecv := leftRecv + |chunk|;
        assert Residue() == old(Residue()) + chunk;
        dispatched := ProcessData();
      case Eof =>
        leftRecv := 0;
        open := false;
      case RecvError(retry) =>
        if !retry {
          leftRecv := 0;
          open := false;
        }
    }

    /** Move the packet at the head of the queue into the empty send buffer. */
    method LoadPacket() returns (ok: bool, ghost f: seq<Byte>)
      requires Buffers() && leftSend == 0 && queue != []
      modifies this`leftSend, this`queue, sendBuf
      ensures Buffers()
      ensures queue == old(queue)[1..]
      ensures ok ==> IsWireForm(codec, f, old(queue)[0]) && Unsent() == f
      ensures ok <==> IsOwnProtocol(old(queue)[0]) || codec.rtpBody(old(queue)[0]).Some?
      ensures !ok ==> leftSend == 0
    {
      var data := queue[0];
      queue := queue[1..];
      if IsOwnProtocol(data) {
        Store(sendBuf, 0, data);
        leftSend := |data|;
        f := data;
      } else {
        var body := codec.rtpBody(data);
        if body.None? {
          return false, [];
        }
        var p := Pdu(RTP_RTCP_PACKET, body.value);
        f := Frame(p, sendBuf[3]);
        PackPduBuf(sendBuf, 0, p);
        leftSend := PDU_HEAD_LEN + |p.data|;
      }
      ok := true;
    }

    /** Of `packets`, those in `frames` have left the queue; `wire` and then the unsent bytes, which start at
        `pos`, are the bytes unsent before and these frames. */
    ghost predicate Account(packets: seq<Packet>, was: seq<Byte>, wire: seq<Byte>, pos: nat, frames: seq<seq<Byte>>)
      reads this, sendBuf
    {
      && Buffers() && pos + leftSend <= PACK_MAX_LEN
      && |frames| <= |packets| && queue == packets[|frames|..]
      && WireForms(codec, frames, packets[..|frames|])
      && wire + sendBuf[pos..pos + leftSend] == was + Flatten(frames)
    }

    /** The account with the answers used so far, which have taken `took`. */
    ghost predicate Progress(packets: seq<Packet>, was: seq<Byte>, wire: seq<Byte>, pos: nat, frames: seq<seq<Byte>>,
                             results: seq<SendResult>, took: seq<nat>)
      reads this, sendBuf
    {
      && Account(packets, was, wire, pos, frames)
      && Booked(|was|, Lens(frames), results, took, leftSend, |took|) && |wire| == Sum(took)
    }

    /** The next packet is loaded into the empty send buffer, or dropped because it cannot be packed. */
    method Refill(ghost packets: seq<Packet>, ghost was: seq<Byte>, ghost wire: seq<Byte>, ghost pos: nat,
                  ghost frames: seq<seq<Byte>>, ghost results: seq<SendResult>, ghost took: seq<nat>)
      returns (ok: bool, ghost frames': seq<seq<Byte>>)
      requires Progress(packets, was, wire, pos, frames, results, took) && leftSend == 0 && queue != []
      modifies this`leftSend, this`queue, sendBuf
      ensures ok ==> Progress(packets, was, wire, 0, frames', results, took) && leftSend > 0
      ensures !ok ==>
                && frames' == frames && |frames| < |packets| && queue == packets[|frames| + 1..]
                && !IsOwnProtocol(packets[|frames|]) && codec.rtpBody(packets[|frames|]).None?
                && wire == was + Flatten(frames) && Buffers() && leftSend == 0
                && Took(|was|, Lens(frames), results) == took
    {
      assert wire == was + Flatten(frames);
      ghost var f;
      ok, f := LoadPacket();
      frames' := frames;
      if ok {
        LoadedFrame(was, frames, f);
        WireFormsSnoc(codec, frames, f, packets);
        frames' := frames + [f];
        assert sendBuf[0..leftSend] == f;
        BookedLoad(|was|, Lens(frames), results, took, |f|, |took|);
        assert Lens(frames') == Lens(frames) + [|f|];
      } else {
        BookedEnd(|was|, Lens(frames), results, took, 0, |took|);
      }
    }

    /** The unsent bytes move back to the front of the send buffer. */
    method Compact(pos: nat)
      requires Buffers() && pos + leftSend <= PACK_MAX_LEN
      modifies sendBuf
      ensures Unsent() == old(sendBuf[pos..pos + leftSend])
    {
      if pos != 0 {
        MoveToFront(sendBuf, pos, leftSend);
      }
    }

    /** The socket takes up to `n` of the unsent bytes, which start at `pos`. */
    method TakeSome(pos: nat, n: nat, wire: seq<Byte>,
                    ghost packets: seq<Packet>, ghost was: seq<Byte>, ghost frames: seq<seq<Byte>>)
      returns (pos': nat, wire': seq<Byte>)
      requires Account(packets, was, wire, pos, frames)
      modifies this`leftSend
      ensures Account(packets, was, wire', pos', frames)
      ensures var k := Least(n, old(leftSend));
              leftSend == old(leftSend) - k && wire' == wire + sendBuf[pos..pos + k]
    {
      var k := Least(n, leftSend);
      ghost var buf := sendBuf[..];
      Taken(wire, buf, pos, pos + k, pos + leftSend);
      wire' := wire + sendBuf[pos..pos + k];
      assert wire' + buf[pos + k..pos + leftSend] == was + Flatten(frames);
      leftSend := leftSend - k;
      pos' := pos + k;
    }

    /** One call of `Send`, and what follows from its answer. The loop goes on only if bytes were taken. */
    method Transmit(result: SendResult, pos: nat, wire: seq<Byte>, ghost packets: seq<Packet>, ghost was: seq<Byte>,
                    ghost frames: seq<seq<Byte>>, ghost results: seq<SendResult>, ghost took: seq<nat>)
      returns (pos': nat, wire': seq<Byte>, ghost took': seq<nat>)
      requires Progress(packets, was, wire, pos, frames, results, took) && leftSend > 0
      requires result == if |took| < |results| then results[|took|] else Busy
      modifies this`leftSend, this`open, sendBuf
      ensures queue == old(queue) && Buffers()
      ensures result.Sent? ==>
                && Progress(packets, was, wire', pos', frames, results, took') && open == old(open)
                && took' == took + [if result.n <= old(leftSend) then result.n else old(leftSend)]
      ensures !result.Sent? ==> took' == took == Took(|was|, Lens(frames), results) && wire' == wire
      ensures result.Busy? ==> wire + Unsent() == was + Flatten(frames) && open == old(open)
      ensures result.Broken? ==> wire <= was + Flatten(frames) && Unsent() == [] && !open
    {
      pos', wire', took' := pos, wire, took;
      match result
      case Sent(n) =>
        BookedTake(|was|, Lens(frames), results, took, leftSend, |took|);
        took' := took + [Least(n, leftSend)];
        SumSnoc(took, Least(n, leftSend));
        pos', wire' := TakeSome(pos, n, wire, packets, was, frames);
      case Busy =>
        BookedEnd(|was|, Lens(frames), results, took, leftSend, |took|);
        Compact(pos);
      case Broken =>
        BookedEnd(|was|, Lens(frames), results, took, leftSend, |took|);
        leftSend := 0;
        open := false;
    }

    /** One write event. `results` are the socket's answers in order, and it is busy after the last one; `wire`
        is what the socket took, `frames` the frames loaded from the queue. */
    method HandleSend(results: seq<SendResult>)
      returns (wire: seq<Byte>, outcome: Outcome, ghost frames: seq<seq<Byte>>)
      requires Buffers()
      modifies this`leftSend, this`queue, this`open, this`loaded, this`taken, this`answered, sendBuf
      ensures Buffers() && queued == old(queued) && loaded == old(loaded) + frames && taken == old(taken) + wire
      ensures |frames| <= |old(queue)| && WireForms(codec, frames, old(queue)[..|frames|])
      ensures outcome.Drained? || outcome.Blocked? ==>
                WriteStep(codec, old(Sending()), Sending(), wire, frames, results) && open == old(open)
      ensures AsAnswered(results, Took(old(leftSend), Lens(frames), results), wire, outcome)
      ensures outcome.Drained? ==> queue == [] && Unsent() == []
      ensures outcome.Disconnected? ==>
                && queue == old(queue)[|frames|..]
                && wire <= old(Unsent()) + Flatten(frames)
                && Unsent() == [] && !open
      ensures outcome.PackFailed? ==>
                && |frames| < |old(queue)|
                && queue == old(queue)[|frames| + 1..]
                && !IsOwnProtocol(old(queue)[|frames|]) && codec.rtpBody(old(queue)[|frames|]).None?
                && wire == old(Unsent()) + Flatten(frames)
                && Unsent() == [] && open == old(open)
    {
      wire, outcome, frames := SendLoop(results);
      loaded, taken, answered := loaded + frames, taken + wire, answered + |wire|;
    }

    /** A packet is queued, and sent at once if nothing is left over from before. As long as the connection holds
        and packets can be packed, the account of all packets ever queued stays complete. */
    method SendBuf(d: Packet, results: seq<SendResult>) returns (outcome: Outcome)
      requires Buffers() && SenderConserves(codec, Sending())
      modifies this`leftSend, this`queue, this`queued, this`open, this`loaded, this`taken, this`answered, sendBuf
      ensures Buffers() && queued == old(queued) + [d]
      ensures outcome.Drained? || outcome.Blocked? ==> SenderConserves(codec, Sending())
    {
      queue, queued := queue + [d], queued + [d];
      assert QueueStep(old(Sending()), Sending(), d);
      SenderStepConserves(codec, old(Sending()), Sending());
      outcome := Blocked;
      if leftSend == 0 {
        outcome := WriteEvent(results);
      }
    }

    /** A write event keeps that account. */
    method WriteEvent(results: seq<SendResult>) returns (outcome: Outcome)
      requires Buffers() && SenderConserves(codec, Sending())
      modifies this`leftSend, this`queue, this`open, this`loaded, this`taken, this`answered, sendBuf
      ensures Buffers() && queued == old(queued)
      ensures outcome.Drained? || outcome.Blocked? ==> SenderConserves(codec, Sending())
    {
      ghost var s := Sending();
      var wire;
      ghost var frames;
      wire, outcome, frames := HandleSend(results);
      if outcome.Drained? || outcome.Blocked? {
        assert WriteStep(codec, s, Sending(), wire, frames, results);
        SenderStepConserves(codec, s, Sending());
      }
    }

    /** The loop of `handleSend`. */
    method SendLoop(results: seq<SendResult>)
      returns (wire: seq<Byte>, outcome: Outcome, ghost frames: seq<seq<Byte>>)
      requires Buffers()
      modifies this`leftSend, this`queue, this`open, sendBuf
      ensures Buffers()
      ensures |frames| <= |old(queue)| && WireForms(codec, frames, old(queue)[..|frames|])
      ensures outcome.Drained? || outcome.Blocked? ==>
                && queue == old(queue)[|frames|..]
                && wire + Unsent() == old(Unsent()) + Flatten(frames)
                && open == old(open)
      ensures AsAnswered(results, Took(old(leftSend), Lens(frames), results), wire, outcome)
      ensures outcome.Drained? ==> queue == [] && Unsent() == []
      ensures outcome.Disconnected? ==>
                && queue == old(queue)[|frames|..]
                && wire <= old(Unsent()) + Flatten(frames)
                && Unsent() == [] && !open
      ensures outcome.PackFailed? ==>
                && |frames| < |old(queue)|
                && queue == old(queue)[|frames| + 1..]
                && !IsOwnProtocol(old(queue)[|frames|]) && codec.rtpBody(old(queue)[|frames|]).None?
                && wire == old(Unsent()) + Flatten(frames)
                && Unsent() == [] && open == old(open)
    {
      wire, frames := [], [];
      var pos: nat, i: nat := 0, 0;
      ghost var was, packets := Unsent(), queue;
      ghost var took: seq<nat> := [];
      BookedStart(|was|, results);
      assert Lens([]) == [] && Sum([]) == 0;
      while true
        invariant Progress(packets, was, wire, pos, frames, results, took) && |took| == i <= |results|
        invariant open == old(open)
        decreases |results| - i
      {
        if leftSend == 0 {
          if queue == [] {
            BookedEnd(|was|, Lens(frames), results, took, leftSend, i);
            return wire, Drained, frames;
          }
          var ok;
          ok, frames := Refill(packets, was, wire, pos, frames, results, took);
          if !ok {
            return wire, PackFailed, frames;
          }
          pos := 0;
        }
        var result := if i < |results| then results[i] else Busy;
        pos, wire, took := Transmit(result, pos, wire, packets, was, frames, results, took);
        if !result.Sent? {
          return wire, if result.Busy? then Blocked else Disconnected, frames;
        }
        i := i + 1;
      }
    }
  }

  lemma SenderStepConserves(c: Codec, s: Sender, s': Sender)
    requires SenderConserves(c, s) && SenderStep(c, s, s')
    ensures SenderConserves(c, s')
  {
    if d :| QueueStep(s, s', d) {
      assert s'.queued[..|s.frames|] == s.queued[..|s.frames|];
    } else {
      var wire, fs, results :| WriteStep(c, s, s', wire, fs, results);
      FlattenAppend(s.frames, fs);
      Rejoin(s.wire, wire, s'.unsent, s.unsent, Flatten(fs));
      WireFormsAppend(c, s.frames, s.queued, fs);
    }
  }

  lemma Rejoin(a: seq<Byte>, b: seq<Byte>, c: seq<Byte>, d: seq<Byte>, e: seq<Byte>)
    requires b + c == d + e
    ensures (a + b) + c == (a + d) + e
  {
    assert (a + b) + c == a + (b + c);
    assert (a + d) + e == a + (d + e);
  }

  lemma WireFormsAppend(c: Codec, fs: seq<seq<Byte>>, ds: seq<Packet>, gs: seq<seq<Byte>>)
    requires |fs| + |gs| <= |ds| && WireForms(c, fs, ds[..|fs|]) && WireForms(c, gs, ds[|fs|..][..|gs|])
    ensures WireForms(c, fs + gs, ds[..|fs + gs|])
    ensures ds[|fs|..][|gs|..] == ds[|fs + gs|..]
  {
    assert ds[..|fs + gs|] == ds[..|fs|] + ds[|fs|..][..|gs|];
  }

  lemma {:induction false} RelaySenderConserves(c: Codec, t: seq<Sender>)
    requires SenderRun(c, t)
    ensures SenderConserves(c, t[|t| - 1])
  {
    if |t| > 1 {
      var n := |t| - 1;
      RelaySenderConserves(c, t[..n]);
      SenderStepConserves(c, t[n - 1], t[n]);
    }
  }

  /** The packet the far end should see for a queued one. */
  function PduOf(c: Codec, d: Packet): (p: Pdu)
    requires IsOwnProtocol(d) || c.rtpBody(d).Some?
  {
    if IsOwnProtocol(d) then Pdu(U16(d, 6), d[PDU_HEAD_LEN..]) else Pdu(RTP_RTCP_PACKET, c.rtpBody(d).value)
  }

  /** A packet that frames itself has to announce its own length. */
  predicate SelfConsistent(d: Packet) {
    IsOwnProtocol(d) ==> U16(d, 4) == |d| - PDU_HEAD_LEN
  }

  /** Of what has arrived of the relay's bytes the client's parser yields a prefix of the packets queued; once all
      bytes are out and in, it yields every packet. */
  ghost predicate ReachesClient(c: Codec, s: Sender, arrived: seq<Byte>) {
    var got := Parse(arrived).pdus;
    && |got| <= |s.queued|
    && (forall i | 0 <= i < |got| ::
          (IsOwnProtocol(s.queued[i]) || c.rtpBody(s.queued[i]).Some?) && got[i] == PduOf(c, s.queued[i]))
    && (arrived == s.wire && s.unsent == [] && s.queue == [] ==> |got| == |s.queued|)
  }

  /** Whatever prefix of the bytes arrives, a complete account is all it takes; every channel keeps one. */
  lemma ConservedReachesClient(c: Codec, s: Sender, arrived: seq<Byte>)
    requires SenderConserves(c, s) && arrived <= s.wire
    requires forall d | d in s.queued :: SelfConsistent(d)
    ensures ReachesClient(c, s, arrived)
  {
    var ps := FramesAnnounce(c, s.frames, s.queued);
    assert Parse(Flatten(s.frames)) == Parsed(ps, []) by { ParseFrames(s.frames, ps); }
    assert arrived <= Flatten(s.frames);
    ParsePrefix(arrived, Flatten(s.frames));
    if arrived == s.wire && s.unsent == [] {
      assert arrived == Flatten(s.frames);
    }
  }

  /** Relay to client, over every run of the sender. */
  lemma RelayToClient(c: Codec, t: seq<Sender>, arrived: seq<Byte>)
    requires SenderRun(c, t)
    requires forall d | d in t[|t| - 1].queued :: SelfConsistent(d)
    requires arrived <= t[|t| - 1].wire
    ensures ReachesClient(c, t[|t| - 1], arrived)
  {
    RelaySenderConserves(c, t);
    ConservedReachesClient(c, t[|t| - 1], arrived);
  }

  lemma WireFormAnnounces(c: Codec, f: seq<Byte>, d: Packet)
    requires IsWireForm(c, f, d) && SelfConsistent(d)
    ensures Announces(f, PduOf(c, d))
  {
  }

  lemma FramesAnnounce(c: Codec, fs: seq<seq<Byte>>, ds: seq<Packet>) returns (ps: seq<Pdu>)
    requires |fs| <= |ds| && WireForms(c, fs, ds[..|fs|])
    requires forall d | d in ds :: SelfConsistent(d)
    ensures AllAnnounce(fs, ps)
    ensures forall i | 0 <= i < |fs| ::
              (IsOwnProtocol(ds[i]) || c.rtpBody(ds[i]).Some?) && ps[i] == PduOf(c, ds[i])
  {
    ps := [];
    for i := 0 to |fs|
      invariant |ps| == i
      invariant forall j | 0 <= j < i ::
                  && (IsOwnProtocol(ds[j]) || c.rtpBody(ds[j]).Some?)
                  && ps[j] == PduOf(c, ds[j]) && Announces(fs[j], ps[j])
    {
      assert ds[..|fs|][i] == ds[i] && ds[i] in ds;
      WireFormAnnounces(c, fs[i], ds[i]);
      ps := ps + [PduOf(c, ds[i])];
    }
  }
}
