/** The choice of the next relay server (localproxy/src/NetTestManager.cpp). A result map is the sequence of its
    entries in address order. */
module ServerSelect {

  datatype Address = Address(ip: nat, port: nat) {
    predicate Empty() {
      ip == 0 || port == 0
    }
  }

  datatype Priority = UseNone | UseAll | UseTcp | UseUdp
  datatype RelayType = Sip | Rtp

  datatype Attribute = Attribute(useTcp: bool, useUdp: bool, rtt: nat, updateTime: nat) {
    function GetPriority(): (p: Priority)
      ensures p.UseAll? <==> useTcp && useUdp
      ensures p.UseTcp? <==> useTcp && !useUdp
      ensures p.UseUdp? <==> !useTcp && useUdp
    {
      if useTcp && useUdp then UseAll else if useTcp then UseTcp else if useUdp then UseUdp else UseNone
    }
  }

  const RESET := Attribute(false, false, 0, 0)
  const TEST_PERIOD := 10000

  datatype Entry = Entry(addr: Address, attr: Attribute)
  type ResultMap = seq<Entry>

  ghost predicate IsMap(m: ResultMap) {
    forall i, j | 0 <= i < j < |m| :: m[i].addr != m[j].addr
  }

  /** An entry of class `p` that was updated before `now`. */
  predicate Eligible(e: Entry, p: Priority, now: nat) {
    e.attr.GetPriority() == p && e.attr.updateTime < now
  }

  /** `i` is the least recently updated eligible entry of class `p`, the first one in address order on a tie. */
  ghost predicate IsOldest(m: ResultMap, p: Priority, now: nat, i: int) {
    && 0 <= i < |m| && Eligible(m[i], p, now)
    && (forall j | 0 <= j < |m| && Eligible(m[j], p, now) :: m[i].attr.updateTime <= m[j].attr.updateTime)
    && (forall j | 0 <= j < i && Eligible(m[j], p, now) :: m[i].attr.updateTime < m[j].attr.updateTime)
  }

  ghost predicate NoneEligible(m: ResultMap, p: Priority, now: nat) {
    forall j | 0 <= j < |m| :: !Eligible(m[j], p, now)
  }

  /** The best of one class, as the search keeps it: an empty address and the time of the call until there is
      one. `i` is its position, -1 for none. */
  ghost predicate IsBest(m: ResultMap, p: Priority, now: nat, i: int, best: Address, time: nat) {
    if i == -1 then NoneEligible(m, p, now) && best == Address(0, 0) && time == now
    else IsOldest(m, p, now, i) && best == m[i].addr && time == m[i].attr.updateTime
  }

  predicate Better(e: Entry, p: Priority, time: nat) {
    e.attr.GetPriority() == p && e.attr.updateTime < time
  }

  lemma BestOfMore(m: ResultMap, n: nat, p: Priority, now: nat, i: int, best: Address, time: nat)
    requires n < |m| && IsBest(m[..n], p, now, i, best, time)
    ensures if Better(m[n], p, time) then IsBest(m[..n + 1], p, now, n, m[n].addr, m[n].attr.updateTime)
            else IsBest(m[..n + 1], p, now, i, best, time)
  {
    assert forall j | 0 <= j < n :: m[..n + 1][j] == m[..n][j];
    assert m[..n + 1][n] == m[n];
  }

  /** The classes in order of preference: both transports, then TCP first for SIP and UDP first for RTP. */
  function Preference(relay: RelayType): (ps: seq<Priority>) {
    if relay.Sip? then [UseAll, UseTcp, UseUdp] else [UseAll, UseUdp, UseTcp]
  }

  /** The map as the search sees it: the server in use is reset, unless it is the only one. */
  function WithoutCurrent(m: ResultMap, cur: Address): (m': ResultMap)
    ensures |m'| == |m| && forall i | 0 <= i < |m| ::
              m'[i] == if |m| > 1 && m[i].addr == cur then Entry(cur, Attribute(false, false, 0, 0)) else m[i]
  {
    seq(|m|, i requires 0 <= i < |m| => if |m| > 1 && m[i].addr == cur then Entry(cur, RESET) else m[i])
  }

  /** The clock as the search reads it, once for each class. */
  datatype Clock = Clock(all: nat, tcp: nat, udp: nat) {
    function For(p: Priority): (now: nat) {
      match p
      case UseAll => all
      case UseTcp => tcp
      case UseUdp => udp
      case UseNone => 0
    }
  }

  /** The oldest entry of the class has an empty address, which the search cannot tell from having found none. */
  ghost predicate Hidden(m: ResultMap, p: Priority, now: nat) {
    exists i :: IsOldest(m, p, now, i) && m[i].addr.Empty()
  }

  /** The class offers nothing. */
  ghost predicate Skipped(m: ResultMap, p: Priority, now: nat) {
    NoneEligible(m, p, now) || Hidden(m, p, now)
  }

  /** `i` is what the search picks: the oldest entry of the first class that offers one; -1 if none does. */
  ghost predicate IsPick(m: ResultMap, relay: RelayType, clock: Clock, c: nat, i: int) {
    && c <= 3
    && (forall d | 0 <= d < c :: Skipped(m, Preference(relay)[d], clock.For(Preference(relay)[d])))
    && (if c < 3 then IsOldest(m, Preference(relay)[c], clock.For(Preference(relay)[c]), i) && !m[i].addr.Empty()
        else i == -1)
  }

  /** A picked server is never the one in use, except when that is the only entry. */
  lemma PickIsAnother(m: ResultMap, cur: Address, relay: RelayType, clock: Clock, c: nat, i: int)
    requires IsPick(WithoutCurrent(m, cur), relay, clock, c, i) && c < 3
    ensures 0 <= i < |m| && (m[i].addr != cur || |m| == 1)
    ensures WithoutCurrent(m, cur)[i] == m[i]
  {
    assert Preference(relay)[c] != UseNone;
  }

  /** The oldest entry of a class is unique. */
  lemma OldestIsUnique(m: ResultMap, p: Priority, now: nat, i: int, j: int)
    requires IsOldest(m, p, now, i) && IsOldest(m, p, now, j)
    ensures i == j
  {
  }

  /** `b` is the best class: the first in order of preference that has an eligible entry, 3 if none has. */
  ghost predicate IsBestClass(m: ResultMap, relay: RelayType, clock: Clock, b: nat) {
    && b <= 3
    && (forall d | 0 <= d < b :: NoneEligible(m, Preference(relay)[d], clock.For(Preference(relay)[d])))
    && (b < 3 ==> !NoneEligible(m, Preference(relay)[b], clock.For(Preference(relay)[b])))
  }

  /** The search picks from the best class if and only if the oldest entry of that class has a proper address;
      otherwise it passes the class over. Where no entry is eligible it picks none. */
  lemma PickIsBestIff(m: ResultMap, relay: RelayType, clock: Clock, c: nat, i: int, b: nat)
    requires IsPick(m, relay, clock, c, i) && IsBestClass(m, relay, clock, b)
    ensures b <= c
    ensures c == b <==> b == 3 || !Hidden(m, Preference(relay)[b], clock.For(Preference(relay)[b]))
    ensures (forall j | 0 <= j < |m| :: !m[j].addr.Empty()) ==> c == b
  {
    if c < 3 {
      var p := Preference(relay)[c];
      assert !NoneEligible(m, p, clock.For(p));
      forall j | IsOldest(m, p, clock.For(p), j)
        ensures j == i
      {
        OldestIsUnique(m, p, clock.For(p), i, j);
      }
    }
    if b < c {
      assert Skipped(m, Preference(relay)[b], clock.For(Preference(relay)[b]));
    }
  }

  /** A server list may hold an address without a host, which the connection test can report as reachable over TCP.
      As the oldest of its class it hides a usable server, and nothing is picked. */
  lemma EmptyAddressHides(relay: RelayType, now: nat, good: Address)
    requires now > 2 && !good.Empty()
    ensures var m := [Entry(Address(0, 80), Attribute(true, false, 0, 1)), Entry(good, Attribute(true, false, 0, 2))];
            var clock := Clock(now, now, now);
            IsMap(m) && Eligible(m[1], UseTcp, now) && IsPick(m, relay, clock, 3, -1)
  {
    var m := [Entry(Address(0, 80), Attribute(true, false, 0, 1)), Entry(good, Attribute(true, false, 0, 2))];
    assert IsOldest(m, UseTcp, now, 0) && Hidden(m, UseTcp, now);
    assert NoneEligible(m, UseAll, now) && NoneEligible(m, UseUdp, now);
  }

  /** The oldest of the entries with these two flags that were updated before `now`, and it has an address. */
  ghost predicate OldestWith(m: ResultMap, tcp: bool, udp: bool, now: nat, i: int) {
    && 0 <= i < |m| && m[i].attr.useTcp == tcp && m[i].attr.useUdp == udp && m[i].attr.updateTime < now
    && m[i].addr.ip != 0 && m[i].addr.port != 0
    && forall j | 0 <= j < |m| && m[j].attr.useTcp == tcp && m[j].attr.useUdp == udp ::
         m[i].attr.updateTime <= m[j].attr.updateTime && (j < i ==> m[i].attr.updateTime < m[j].attr.updateTime)
  }

  ghost predicate Offered(m: ResultMap, tcp: bool, udp: bool, now: nat) {
    exists i :: OldestWith(m, tcp, udp, now, i)
  }

  /** Class number `d` in terms of the flags: it is where the pick comes from, or offers nothing. */
  ghost predicate PickedOrPassed(m: ResultMap, tcp: bool, udp: bool, now: nat, c: nat, i: int, d: nat) {
    && (c == d ==> OldestWith(m, tcp, udp, now, i))
    && (c > d ==> !Offered(m, tcp, udp, now))
  }

  lemma PickedOrPassedAt(m: ResultMap, relay: RelayType, clock: Clock, c: nat, i: int, d: nat)
    requires IsPick(m, relay, clock, c, i) && d < 3
    ensures var p := Preference(relay)[d];
            PickedOrPassed(m, p.UseAll? || p.UseTcp?, p.UseAll? || p.UseUdp?, clock.For(p), c, i, d)
  {
    var p := Preference(relay)[d];
    SkippedMeans(m, p, clock.For(p), p.UseAll? || p.UseTcp?, p.UseAll? || p.UseUdp?);
    if c == d {
      OldestMeans(m, p, clock.For(p), i);
    }
  }

  /** The pick in terms of the flags: a server usable over both transports first; then, for SIP, one usable over TCP
      alone and then one usable over UDP alone, and for RTP the other way round; always the oldest of its kind. */
  lemma PickByFlags(m: ResultMap, relay: RelayType, clock: Clock, c: nat, i: int)
    requires IsPick(m, relay, clock, c, i)
    ensures c <= 3 && PickedOrPassed(m, true, true, clock.all, c, i, 0)
    ensures relay.Sip? ==>
              PickedOrPassed(m, true, false, clock.tcp, c, i, 1) && PickedOrPassed(m, false, true, clock.udp, c, i, 2)
    ensures relay.Rtp? ==>
              PickedOrPassed(m, false, true, clock.udp, c, i, 1) && PickedOrPassed(m, true, false, clock.tcp, c, i, 2)
  {
    PickedOrPassedAt(m, relay, clock, c, i, 0);
    PickedOrPassedAt(m, relay, clock, c, i, 1);
    PickedOrPassedAt(m, relay, clock, c, i, 2);
  }

  lemma OldestMeans(m: ResultMap, p: Priority, now: nat, i: int)
    requires !p.UseNone? && IsOldest(m, p, now, i) && !m[i].addr.Empty()
    ensures OldestWith(m, p.UseAll? || p.UseTcp?, p.UseAll? || p.UseUdp?, now, i)
  {
    forall j | 0 <= j < |m| && m[j].attr.GetPriority() == p
      ensures m[i].attr.updateTime <= m[j].attr.updateTime && (j < i ==> m[i].attr.updateTime < m[j].attr.updateTime)
    {
      if m[j].attr.updateTime < now {
        assert Eligible(m[j], p, now);
      }
    }
  }

  lemma SkippedMeans(m: ResultMap, p: Priority, now: nat, tcp: bool, udp: bool)
    requires !p.UseNone? && tcp == (p.UseAll? || p.UseTcp?) && udp == (p.UseAll? || p.UseUdp?)
    ensures Skipped(m, p, now) ==> !Offered(m, tcp, udp, now)
  {
    forall i | OldestWith(m, tcp, udp, now, i)
      ensures IsOldest(m, p, now, i) && !m[i].addr.Empty() && Eligible(m[i], p, now)
    {
    }
    forall i, j | IsOldest(m, p, now, i) && IsOldest(m, p, now, j)
      ensures i == j
    {
      OldestIsUnique(m, p, now, i, j);
    }
  }

  /** Position of the server in use, or the size of the map. */
  function CurrentAt(m: ResultMap, cur: Address): (k: nat)
    ensures k <= |m| && (k < |m| ==> m[k].addr == cur) && forall j | 0 <= j < k :: m[j].addr != cur
  {
    if m == [] || m[0].addr == cur then 0 else 1 + CurrentAt(m[1..], cur)
  }

  /** The server in use is one of several, and usable. */
  predicate CurrentUsable(m: ResultMap, cur: Address) {
    var k := CurrentAt(m, cur);
    k < |m| && |m| > 1 && (m[k].attr.useTcp || m[k].attr.useUdp)
  }

  /** What a test run meets: the clock when it asks and when it notes the time, and whether probing starts. */
  datatype Start = Start(asked: nat, noted: nat, udpOk: bool, tcpOk: bool)

  class NetTestManager {
    var sipResult: ResultMap
    var rtpResult: ResultMap
    var lastTestTime: nat
    var testActive: bool

    constructor ()
      ensures sipResult == [] && rtpResult == [] && lastTestTime == 0 && !testActive
    {
      sipResult, rtpResult, lastTestTime, testActive := [], [], 0, false;
    }

    function ResultOf(relay: RelayType): (m: ResultMap)
      reads this
    {
      if relay.Sip? then sipResult else rtpResult
    }

    /** `newSvr0` and `priority0` are what the caller's variables hold, `clock` and `start` what the clock said
        and whether probing could start. Either the best other server is picked; or, if none is offered, the
        server in use if it was usable; or nothing. `c` is the class and `i` the position of the pick. */
    method GetNewSvr(cur: Address, relay: RelayType, priority0: Priority, newSvr0: Address, clock: Clock, start: Start)
      returns (priority: Priority, newSvr: Address, ghost c: nat, ghost i: int)
      requires IsMap(ResultOf(relay))
      modifies this
      ensures IsPick(WithoutCurrent(old(ResultOf(relay)), cur), relay, clock, c, i)
      ensures var m := old(ResultOf(relay));
              if c < 3 then
                && 0 <= i < |m| && newSvr == m[i].addr && priority == Preference(relay)[c]
                && priority == m[i].attr.GetPriority()
                && (newSvr != cur || |m| == 1)
              else if CurrentUsable(m, cur) then
                newSvr == cur && priority == m[CurrentAt(m, cur)].attr.GetPriority()
              else newSvr == newSvr0 && priority == priority0
      ensures if start.asked - old(lastTestTime) < 10000 then
                && lastTestTime == old(lastTestTime)
                && sipResult == (if relay.Sip? then WithoutCurrent(old(sipResult), cur) else old(sipResult))
                && rtpResult == (if relay.Rtp? then WithoutCurrent(old(rtpResult), cur) else old(rtpResult))
              else
                && lastTestTime == start.noted
                && AllReset(old(sipResult), sipResult) && AllReset(old(rtpResult), rtpResult)
    {
      ghost var m := ResultOf(relay);
      priority, newSvr := ResetCurrent(cur, relay, priority0, newSvr0);
      var m' := ResultOf(relay);
      var all, tcp, udp;
      ghost var a, t, u;
      all, tcp, udp, a, t, u := FindOldest(m', clock);
      priority, newSvr, c, i := Prefer(m', relay, clock, all, tcp, udp, a, t, u, priority, newSvr);
      if c < 3 {
        PickIsAnother(m, cur, relay, clock, c, i);
      }
      var udpDest, tcpDest := StartTest(false, start);
    }

    /** The first part of `GetNewSvr`: the entry in use is saved as the default and reset. */
    method ResetCurrent(cur: Address, relay: RelayType, priority0: Priority, newSvr0: Address)
      returns (priority: Priority, newSvr: Address)
      requires IsMap(ResultOf(relay))
      modifies this`sipResult, this`rtpResult
      ensures sipResult == (if relay.Sip? then WithoutCurrent(old(sipResult), cur) else old(sipResult))
      ensures rtpResult == (if relay.Rtp? then WithoutCurrent(old(rtpResult), cur) else old(rtpResult))
      ensures var m := old(ResultOf(relay));
              if CurrentUsable(m, cur) then newSvr == cur && priority == m[CurrentAt(m, cur)].attr.GetPriority()
              else newSvr == newSvr0 && priority == priority0
    {
      var m := ResultOf(relay);
      priority, newSvr := priority0, newSvr0;
      var k := CurrentAt(m, cur);
      if k < |m| && |m| > 1 {
        var p := m[k].attr.GetPriority();
        if p != UseNone {
          newSvr, priority := cur, p;
        }
        if relay.Sip? {
          sipResult := m[k := Entry(cur, RESET)];
        } else {
          rtpResult := m[k := Entry(cur, RESET)];
        }
      }
      assert ResultOf(relay) == WithoutCurrent(m, cur);
    }

    /** The search loop: the least recently updated address of each class. */
    method FindOldest(m: ResultMap, clock: Clock)
      returns (all: Address, tcp: Address, udp: Address, ghost a: int, ghost t: int, ghost u: int)
      ensures exists x :: IsBest(m, UseAll, clock.all, a, all, x)
      ensures exists x :: IsBest(m, UseTcp, clock.tcp, t, tcp, x)
      ensures exists x :: IsBest(m, UseUdp, clock.udp, u, udp, x)
    {
      all, tcp, udp := Address(0, 0), Address(0, 0), Address(0, 0);
      var allTime, tcpTime, udpTime := clock.all, clock.tcp, clock.udp;
      a, t, u := -1, -1, -1;
      for n := 0 to |m|
        invariant IsBest(m[..n], UseAll, clock.all, a, all, allTime)
        invariant IsBest(m[..n], UseTcp, clock.tcp, t, tcp, tcpTime)
        invariant IsBest(m[..n], UseUdp, clock.udp, u, udp, udpTime)
      {
        BestOfMore(m, n, UseAll, clock.all, a, all, allTime);
        BestOfMore(m, n, UseTcp, clock.tcp, t, tcp, tcpTime);
        BestOfMore(m, n, UseUdp, clock.udp, u, udp, udpTime);
        var e := m[n];
        var p := e.attr.GetPriority();
        if p == UseAll {
          if e.attr.updateTime < allTime {
            all, allTime, a := e.addr, e.attr.updateTime, n;
          }
        } else if p == UseTcp {
          if e.attr.updateTime < tcpTime {
            tcp, tcpTime, t := e.addr, e.attr.updateTime, n;
          }
        } else if p == UseUdp {
          if e.attr.updateTime < udpTime {
            udp, udpTime, u := e.addr, e.attr.updateTime, n;
          }
        }
      }
      assert m[..|m|] == m;
    }

    /** The last part of `GetNewSvr`: the first class in order of preference that has an address. */
    method Prefer(m: ResultMap, relay: RelayType, clock: Clock, all: Address, tcp: Address, udp: Address,
                  ghost a: int, ghost t: int, ghost u: int, priority0: Priority, newSvr0: Address)
      returns (priority: Priority, newSvr: Address, ghost c: nat, ghost i: int)
      requires exists x :: IsBest(m, UseAll, clock.all, a, all, x)
      requires exists x :: IsBest(m, UseTcp, clock.tcp, t, tcp, x)
      requires exists x :: IsBest(m, UseUdp, clock.udp, u, udp, x)
      ensures IsPick(m, relay, clock, c, i)
      ensures if c < 3 then newSvr == m[i].addr && priority == Preference(relay)[c]
              else newSvr == newSvr0 && priority == priority0
    {
      EmptyMeansSkipped(m, UseAll, clock.all, a, all);
      EmptyMeansSkipped(m, UseTcp, clock.tcp, t, tcp);
      EmptyMeansSkipped(m, UseUdp, clock.udp, u, udp);
      priority, newSvr := priority0, newSvr0;
      c, i := 3, -1;
      if relay.Sip? {
        if !all.Empty() {
          newSvr, priority, c, i := all, UseAll, 0, a;
        } else if !tcp.Empty() {
          newSvr, priority, c, i := tcp, UseTcp, 1, t;
        } else if !udp.Empty() {
          newSvr, priority, c, i := udp, UseUdp, 2, u;
        }
      } else {
        if !all.Empty() {
          newSvr, priority, c, i := all, UseAll, 0, a;
        } else if !udp.Empty() {
          newSvr, priority, c, i := udp, UseUdp, 1, u;
        } else if !tcp.Empty() {
          newSvr, priority, c, i := tcp, UseTcp, 2, t;
        }
      }
    }

    /** A test run: unless it is forced, it is not started again within the period, and results are reset. RTP
        servers are probed over both transports, SIP servers over TCP only. */
    method StartTest(forced: bool, start: Start) returns (udpDest: set<Address>, tcpDest: set<Address>)
      modifies this
      ensures if !forced && start.asked - old(lastTestTime) < 10000 then
                && sipResult == old(sipResult) && rtpResult == old(rtpResult)
                && lastTestTime == old(lastTestTime) && testActive == old(testActive)
                && udpDest == {} && tcpDest == {}
              else
                && lastTestTime == start.noted
                && udpDest == Addresses(old(rtpResult))
                && tcpDest == Addresses(old(rtpResult)) + Addresses(old(sipResult))
                && (forced ==> sipResult == old(sipResult) && rtpResult == old(rtpResult))
                && (!forced ==> AllReset(old(sipResult), sipResult) && AllReset(old(rtpResult), rtpResult))
                && testActive == (old(testActive) || (tcpDest != {} && (start.udpOk || start.tcpOk)))
    {
      udpDest, tcpDest := {}, {};
      if !forced && start.asked - lastTestTime < TEST_PERIOD {
        return;
      }
      lastTestTime := start.noted;
      udpDest := Addresses(rtpResult);
      tcpDest := Addresses(rtpResult) + Addresses(sipResult);
      if !forced {
        rtpResult := ResetAll(rtpResult);
        sipResult := ResetAll(sipResult);
      }
      if udpDest == {} && tcpDest == {} {
        return;
      }
      if start.udpOk || start.tcpOk {
        testActive := true;
      }
    }
  }

  function Addresses(m: ResultMap): (s: set<Address>) {
    set e | e in m :: e.addr
  }

  lemma AddressesMean(m: ResultMap, a: Address)
    ensures a in Addresses(m) <==> exists i :: 0 <= i < |m| && m[i].addr == a
  {
    if i :| 0 <= i < |m| && m[i].addr == a {
      assert m[i] in m;
    }
  }

  /** An empty best address means that the class offers nothing, any other one is that of its oldest entry. */
  lemma EmptyMeansSkipped(m: ResultMap, p: Priority, now: nat, i: int, best: Address)
    requires exists x :: IsBest(m, p, now, i, best, x)
    ensures if best.Empty() then Skipped(m, p, now) else IsOldest(m, p, now, i) && best == m[i].addr
  {
  }

  ghost predicate AllReset(m: ResultMap, m': ResultMap) {
    |m'| == |m| && forall i | 0 <= i < |m| :: m'[i] == Entry(m[i].addr, Attribute(false, false, 0, 0))
  }

  method ResetAll(m: ResultMap) returns (m': ResultMap)
    ensures AllReset(m, m')
  {
    m' := [];
    for i := 0 to |m|
      invariant |m'| == i && forall j | 0 <= j < i :: m'[j] == Entry(m[j].addr, RESET)
    {
      m' := m' + [Entry(m[i].addr, RESET)];
    }
  }
}
