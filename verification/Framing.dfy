/** The 8-byte-header frame format and its stream parser (common/ParsePdu.cc, common/TcpParsePdu.h). */
module Framing {
  import opened Bytes

  const PDU_HEAD_LEN := 8
  const PACK_MAX_LEN := 1500

  datatype Pdu = Pdu(cmd: nat, data: seq<Byte>) {
    /** Both header fields are 16 bits wide. */
    predicate Fits() {
      cmd < 0x1_0000 && |data| < 0x1_0000
    }
  }

  /** What `isOwnProtocol` tests: a full header that starts with "SR". */
  predicate IsOwnProtocol(s: seq<Byte>) {
    |s| >= PDU_HEAD_LEN && s[0] == 83 && s[1] == 82
  }

  /** `f` is the frame of `p`; octet 3 of a frame is never written, so it may hold anything. */
  predicate IsFrame(f: seq<Byte>, p: Pdu) {
    IsOwnProtocol(f) && f[2] == 0 && Announces(f, p)
  }

  /** `raw` is a run of octets whose length and command fields announce exactly `p`; the parser does not look
      at the three leading octets. */
  predicate Announces(raw: seq<Byte>, p: Pdu) {
    && |raw| >= PDU_HEAD_LEN
    && U16(raw, 4) == |p.data|
    && U16(raw, 6) == p.cmd
    && raw[PDU_HEAD_LEN..] == p.data
  }

  function Header(n: nat, cmd: nat, junk: Byte): (h: seq<Byte>)
    requires n < 0x1_0000 && cmd < 0x1_0000
    ensures |h| == 8 && h[..3] == ['S' as int, 'R' as int, 0] && h[3] == junk
    ensures (h[4] as int) + 256 * (h[5] as int) == n == U16(h, 4)
    ensures (h[6] as int) + 256 * (h[7] as int) == cmd == U16(h, 6)
  {
    [83, 82, 0, junk, Lo(n), Hi(n), Lo(cmd), Hi(cmd)]
  }

  /** The frame that `packPduBuf` leaves in a buffer whose octet 3 held `junk`. */
  function Frame(p: Pdu, junk: Byte): (f: seq<Byte>)
    requires p.Fits()
    ensures IsFrame(f, p)
  {
    Header(|p.data|, p.cmd, junk) + p.data
  }

  method WriteHead(out: array<Byte>, at: nat, n: nat, cmd: nat)
    requires n < 0x1_0000 && cmd < 0x1_0000 && at + PDU_HEAD_LEN <= out.Length
    modifies out
    ensures out[..at] == old(out[..at])
    ensures out[at..at + PDU_HEAD_LEN] == Header(n, cmd, old(out[at + 3]))
  {
    out[at], out[at + 1], out[at + 2] := 83, 82, 0;
    out[at + 4], out[at + 5] := Lo(n), Hi(n);
    out[at + 6], out[at + 7] := Lo(cmd), Hi(cmd);
  }

  /** `packPduBuf`: octets 0-2 and 4-7 and the payload are written at `at`, octet 3 is not. */
  method PackPduBuf(out: array<Byte>, at: nat, p: Pdu)
    requires p.Fits() && at + PDU_HEAD_LEN + |p.data| <= out.Length
    modifies out
    ensures out[..at] == old(out[..at])
    ensures out[at..at + PDU_HEAD_LEN + |p.data|] == Frame(p, old(out[at + 3]))
  {
    var m := at + PDU_HEAD_LEN;
    WriteHead(out, at, |p.data|, p.cmd);
    Store(out, m, p.data);
    JoinSlices(out[..], at, m, m + |p.data|);
    assert out[..at] == out[..m][..at];
    assert out[at..m] == out[..m][at..];
  }

  /** A buffer that does not yet hold a whole frame. */
  predicate Incomplete(s: seq<Byte>) {
    |s| < PDU_HEAD_LEN || |s| < PDU_HEAD_LEN + U16(s, 4)
  }

  datatype Parsed = Parsed(pdus: seq<Pdu>, rest: seq<Byte>)

  /** Reference parser: peel whole frames off the front, keep the incomplete remainder. */
  function Parse(s: seq<Byte>): (r: Parsed)
    ensures Incomplete(r.rest)
    ensures |r.rest| <= 65542
    ensures |r.rest| <= |s|
    ensures forall p | p in r.pdus :: p.Fits()
  {
    if Incomplete(s) then
      Parsed([], s)
    else
      var n := PDU_HEAD_LEN + U16(s, 4);
      var r := Parse(s[n..]);
      Parsed([Pdu(U16(s, 6), s[PDU_HEAD_LEN..n])] + r.pdus, r.rest)
  }

  /** Unfolding at a whole first frame, with anything behind it. */
  lemma ParseFirst(s: seq<Byte>, t: seq<Byte>)
    requires !Incomplete(s)
    ensures var n := PDU_HEAD_LEN + U16(s, 4);
            var r := Parse(s[n..] + t);
            Parse(s + t) == Parsed([Pdu(U16(s, 6), s[PDU_HEAD_LEN..n])] + r.pdus, r.rest)
  {
    var n := PDU_HEAD_LEN + U16(s, 4);
    var u := s + t;
    assert U16(u, 4) == U16(s, 4) && U16(u, 6) == U16(s, 6);
    assert u[n..] == s[n..] + t;
    assert u[PDU_HEAD_LEN..n] == s[PDU_HEAD_LEN..n];
  }

  /** Parsing a buffer and then more bytes after its remainder equals parsing everything at once. */
  lemma {:induction false} ParseSplit(s: seq<Byte>, t: seq<Byte>)
    ensures var a := Parse(s);
            var b := Parse(a.rest + t);
            Parse(s + t) == Parsed(a.pdus + b.pdus, b.rest)
    decreases |s|
  {
    if Incomplete(s) {
      assert [] + Parse(s + t).pdus == Parse(s + t).pdus;
    } else {
      var n := PDU_HEAD_LEN + U16(s, 4);
      ParseFirst(s, t);
      ParseSplit(s[n..], t);
      var a, p := Parse(s[n..]), Pdu(U16(s, 6), s[PDU_HEAD_LEN..n]);
      assert Parse(s) == Parsed([p] + a.pdus, a.rest);
      Reassociate([p], a.pdus, Parse(a.rest + t).pdus);
    }
  }

  lemma Reassociate(a: seq<Pdu>, b: seq<Pdu>, c: seq<Pdu>)
    ensures (a + b) + c == a + (b + c)
  {
  }

  lemma ParseFrame(f: seq<Byte>, p: Pdu)
    requires Announces(f, p)
    ensures Parse(f) == Parsed([p], [])
  {
    assert |f| == PDU_HEAD_LEN + U16(f, 4);
    assert f[PDU_HEAD_LEN..|f|] == p.data;
    var r := Parse(f[|f|..]);
    assert r == Parsed([], []);
    assert [p] + r.pdus == [p];
  }

  lemma ParseAppendFrame(s: seq<Byte>, ps: seq<Pdu>, f: seq<Byte>, p: Pdu)
    requires Parse(s) == Parsed(ps, [])
    requires Announces(f, p)
    ensures Parse(s + f) == Parsed(ps + [p], [])
  {
    ParseSplit(s, f);
    assert [] + f == f;
    ParseFrame(f, p);
  }

  ghost predicate AllAnnounce(fs: seq<seq<Byte>>, ps: seq<Pdu>) {
    |fs| == |ps| && forall i | 0 <= i < |fs| :: Announces(fs[i], ps[i])
  }

  /** Frames laid end to end parse back to exactly the packets they carry. */
  lemma {:induction false} ParseFrames(fs: seq<seq<Byte>>, ps: seq<Pdu>)
    requires AllAnnounce(fs, ps)
    ensures Parse(Flatten(fs)) == Parsed(ps, [])
  {
    if fs != [] {
      ParseFrame(fs[0], ps[0]);
      ParseSplit(fs[0], Flatten(fs[1..]));
      ParseFrames(fs[1..], ps[1..]);
      assert [] + Flatten(fs[1..]) == Flatten(fs[1..]);
      assert [ps[0]] + ps[1..] == ps;
    }
  }

  /** Cutting a stream of frames anywhere loses nothing before the cut: the parser has seen a prefix. */
  lemma ParsePrefix(s: seq<Byte>, t: seq<Byte>)
    requires s <= t
    ensures Parse(s).pdus <= Parse(t).pdus
  {
    assert t == s + t[|s|..];
    ParseSplit(s, t[|s|..]);
  }

  lemma FirstAnnounces(s: seq<Byte>)
    requires !Incomplete(s)
    ensures Parse(s).pdus != []
    ensures Announces(s[..PDU_HEAD_LEN + U16(s, 4)], Parse(s).pdus[0])
    ensures Parse(s).pdus[1..] == Parse(s[PDU_HEAD_LEN + U16(s, 4)..]).pdus
    ensures Parse(s).rest == Parse(s[PDU_HEAD_LEN + U16(s, 4)..]).rest
  {
    var n := PDU_HEAD_LEN + U16(s, 4);
    assert s[..n][PDU_HEAD_LEN..] == s[PDU_HEAD_LEN..n];
  }

  lemma AnnounceCons(f: seq<Byte>, fs: seq<seq<Byte>>, ps: seq<Pdu>)
    requires ps != [] && Announces(f, ps[0]) && AllAnnounce(fs, ps[1..])
    ensures AllAnnounce([f] + fs, ps)
  {
    assert forall i | 1 <= i < |ps| :: ps[i] == ps[1..][i - 1];
  }

  lemma JoinFrame(s: seq<Byte>, n: nat, fs: seq<seq<Byte>>, rest: seq<Byte>)
    requires n <= |s| && s[n..] == Flatten(fs) + rest
    ensures s == Flatten([s[..n]] + fs) + rest
  {
    FlattenCons(s[..n], fs);
    assert s == s[..n] + s[n..];
    assert s[..n] + (Flatten(fs) + rest) == s[..n] + Flatten(fs) + rest;
  }

  /** Nothing but announced frames is parsed away: the input is those frames, in order, then the remainder. */
  lemma {:induction false} ParseAccountsForInput(s: seq<Byte>) returns (raw: seq<seq<Byte>>)
    ensures s == Flatten(raw) + Parse(s).rest
    ensures AllAnnounce(raw, Parse(s).pdus)
    decreases |s|
  {
    if Incomplete(s) {
      raw := [];
    } else {
      var n := PDU_HEAD_LEN + U16(s, 4);
      FirstAnnounces(s);
      var tail := ParseAccountsForInput(s[n..]);
      raw := [s[..n]] + tail;
      JoinFrame(s, n, tail, Parse(s).rest);
      AnnounceCons(s[..n], tail, Parse(s).pdus);
    }
  }
}
