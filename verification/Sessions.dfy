/**
  The life of relay sessions (relayserver/SessionManager.cc, Session.cc, Channel.cc, Poll.cc) as a step machine.
  Accepting, receiving, timer ticks and event loops interleave freely; each step is what one thread does under
  the lock, and the drain of one loop is one step. Channel objects live in a table, so that a reference to an
  entry that is gone is a use after free.
 */
module Sessions {

  const DEFAULT_TIMEOUT_SEC := 30

  datatype State = Init | Rw | Timeout | Closed
  datatype Channel = Channel(state: State, lastRecv: int)
  datatype Side = Caller | Callee

  /** `uid` tells apart the sessions that one caller has had in the course of time. */
  datatype Session = Session(uid: nat, name: nat, loop: nat, caller: Channel, callee: Channel)

  /** A reference to one of the two channels of a session. */
  datatype Ref = Ref(key: nat, uid: nat, side: Side)

  /** One session manager with its event loops. `udp` tells which of the two managers it is: a UDP caller has no
      channel of its own on any loop, a TCP caller has. */
  datatype World = World(
    udp: bool,
    loops: nat,
    sessions: map<nat, Session>,
    callers: map<nat, Ref>,
    registered: set<Ref>,
    pending: map<nat, seq<Ref>>,
    nextUid: nat,
    nextLoop: nat)

  function Start(udp: bool, loops: nat): (w: World) {
    World(udp, loops, map[], map[], {}, map[], 0, 0)
  }

  /** The session that the channel belongs to has not been deleted. */
  predicate Live(w: World, r: Ref) {
    r.key in w.sessions && w.sessions[r.key].uid == r.uid
  }

  function Get(w: World, r: Ref): (c: Channel)
    requires Live(w, r)
  {
    if r.side.Caller? then w.sessions[r.key].caller else w.sessions[r.key].callee
  }

  function Put(w: World, r: Ref, c: Channel): (w': World)
    requires Live(w, r)
  {
    var s := w.sessions[r.key];
    w.(sessions := w.sessions[r.key := if r.side.Caller? then s.(caller := c) else s.(callee := c)])
  }

  // ---------------------------------------------------------------- keys

  predicate IsAddress(ip: nat, port: nat) {
    ip < 0x1_0000_0000 && port < 0x1_0000
  }

  /** The address in the upper bits, the port in the lower sixteen. */
  function CreateKey(ip: nat, port: nat): (key: nat)
    requires IsAddress(ip, port)
    ensures key < 0x1_0000_0000_0000
  {
    ip * 0x1_0000 + port
  }

  /** The shift and the mask in `updateSessions` undo the key, so different callers have different keys. */
  lemma KeyIsUndone(ip: nat, port: nat)
    requires IsAddress(ip, port)
    ensures CreateKey(ip, port) % 0x1_0000 == port
    ensures (CreateKey(ip, port) / 0x1_0000) % 0x1_0000_0000 == ip
  {
  }

  lemma KeyIsInjective(ip: nat, port: nat, ip': nat, port': nat)
    requires IsAddress(ip, port) && IsAddress(ip', port') && CreateKey(ip, port) == CreateKey(ip', port')
    ensures ip == ip' && port == port'
  {
    KeyIsUndone(ip, port);
    KeyIsUndone(ip', port');
  }

  // ---------------------------------------------------------------- steps

  function PendingOf(w: World, loop: nat): (rs: seq<Ref>) {
    if loop in w.pending then w.pending[loop] else []
  }

  function SetState(w: World, r: Ref, s: State): (w': World)
    requires Live(w, r)
  {
    Put(w, r, Get(w, r).(state := s))
  }

  function SetLastRecv(w: World, r: Ref, t: int): (w': World)
    requires Live(w, r)
  {
    Put(w, r, Get(w, r).(lastRecv := t))
  }

  /** `Channel::addToPoll`. */
  function AddToPoll(w: World, r: Ref): (w': World)
    requires Live(w, r)
  {
    SetState(w, r, Rw).(registered := w.registered + {r})
  }

  /** `close`: off the loop, and closed. */
  function Close(w: World, r: Ref): (w': World)
    requires Live(w, r)
  {
    SetState(w, r, Closed).(registered := w.registered - {r})
  }

  /** `postTimeout`: onto the loop's pending list, or closed at once where there is no loop. */
  function PostTimeout(w: World, r: Ref): (w': World)
    requires Live(w, r)
  {
    var loop := w.sessions[r.key].loop;
    if w.udp && r.side.Caller? then Close(w, r)
    else SetState(w, r, Timeout).(pending := w.pending[loop := PendingOf(w, loop) + [r]])
  }

  function CallerRef(w: World, k: nat): (r: Ref)
    requires k in w.sessions
    ensures Live(w, r)
  {
    Ref(k, w.sessions[k].uid, Caller)
  }

  function CalleeRef(w: World, k: nat): (r: Ref)
    requires k in w.sessions
    ensures Live(w, r)
  {
    Ref(k, w.sessions[k].uid, Callee)
  }

  /** The timeout of the caller. The difference is unsigned, so a tick whose time was read before the last receipt
      finds a huge one and counts as a timeout too. */
  predicate Silent(s: Session, t: int) {
    t < s.caller.lastRecv || t - s.caller.lastRecv >= DEFAULT_TIMEOUT_SEC
  }

  predicate Open(c: Channel) {
    !c.state.Timeout? && !c.state.Closed?
  }

  /** `checkChannelsTimeout` answers that the session can go. */
  predicate IsDead(s: Session, t: int) {
    Silent(s, t) && s.caller.state.Closed? && s.callee.state.Closed?
  }

  /** It posts both channels unless the caller has been posted or closed before. */
  predicate MustPost(s: Session, t: int) {
    Silent(s, t) && Open(s.caller)
  }

  function CheckSession(w: World, k: nat, t: int): (w': World)
    requires k in w.sessions
  {
    if MustPost(w.sessions[k], t) then PostTimeout(PostTimeout(w, CallerRef(w, k)), CalleeRef(w, k)) else w
  }

  datatype Checked = Checked(w: World, dead: seq<nat>)

  /** The loop of `updateSessions` over the sessions in the order of the map. */
  function CheckAll(w: World, ks: seq<nat>, t: int): (r: Checked)
    decreases |ks|
  {
    if ks == [] then Checked(w, [])
    else if ks[0] !in w.sessions then CheckAll(w, ks[1..], t)
    else
      var r := CheckAll(CheckSession(w, ks[0], t), ks[1..], t);
      if IsDead(w.sessions[ks[0]], t) then Checked(r.w, [ks[0]] + r.dead) else r
  }

  /** With `dead` found so far in `v`, the keys from `i` on are still to be checked. */
  ghost predicate CheckAllFrom(w: World, ks: seq<nat>, t: int, v: World, dead: seq<nat>, i: nat) {
    i <= |ks| && CheckAll(w, ks, t) == Checked(CheckAll(v, ks[i..], t).w, dead + CheckAll(v, ks[i..], t).dead)
  }

  lemma CheckAllStep(w: World, ks: seq<nat>, t: int, v: World, dead: seq<nat>, i: nat)
    requires CheckAllFrom(w, ks, t, v, dead, i) && i < |ks|
    ensures if ks[i] in v.sessions
            then CheckAllFrom(w, ks, t, CheckSession(v, ks[i], t),
                              if IsDead(v.sessions[ks[i]], t) then dead + [ks[i]] else dead, i + 1)
            else CheckAllFrom(w, ks, t, v, dead, i + 1)
  {
    var k, tail := ks[i], ks[i + 1..];
    assert ks[i..][0] == k && ks[i..][1..] == tail;
    if k in v.sessions {
      var r := CheckAll(CheckSession(v, k, t), tail, t);
      assert dead + ([k] + r.dead) == dead + [k] + r.dead;
    }
  }

  /** `removeCallerChlMap` and `deleteSession`. */
  function DeleteSession(w: World, k: nat): (w': World) {
    w.(sessions := w.sessions - {k}, callers := w.callers - {k})
  }

  function DeleteAll(w: World, ks: seq<nat>): (w': World)
    decreases |ks|
  {
    if ks == [] then w else DeleteAll(DeleteSession(w, ks[0]), ks[1..])
  }

  function Tick(w: World, t: int, order: seq<nat>): (w': World) {
    var r := CheckAll(w, order, t);
    DeleteAll(r.w, r.dead)
  }

  /** A reference to a deleted session would be a use after free here; it is proved that there is none. */
  function CloseAll(w: World, rs: seq<Ref>): (w': World)
    decreases |rs|
  {
    if rs == [] then w
    else CloseAll(if Live(w, rs[0]) then Close(w, rs[0]) else w, rs[1..])
  }

  /** `doPendingCloseChannels`: the list is swapped out, then every channel on it is closed. */
  function Drain(w: World, loop: nat): (w': World) {
    CloseAll(w.(pending := w.pending[loop := []]), PendingOf(w, loop))
  }

  /** `new Session`, its channel pair, and its place in the tables. */
  function NewSession(w: World, k: nat, t: int): (w': World) {
    var blank := Channel(Init, t);
    w.(sessions := w.sessions[k := Session(w.nextUid, k, w.nextLoop, blank, blank)],
       callers := if w.udp then w.callers[k := Ref(k, w.nextUid, Caller)] else w.callers,
       nextUid := w.nextUid + 1,
       nextLoop := if w.nextLoop + 1 >= w.loops then 0 else w.nextLoop + 1)
  }

  function CreateSession(w: World, k: nat, t: int): (w': World) {
    var w1 := NewSession(w, k, t);
    var w2 := if w.udp then w1 else AddToPoll(w1, CallerRef(w1, k));
    AddToPoll(w2, CalleeRef(w2, k))
  }

  /** A known caller: the UDP manager only resets states and times, the TCP manager moves the caller's channel to
      the new socket and registers it again. */
  function ResetSession(w: World, k: nat, t: int): (w': World)
    requires k in w.sessions
  {
    if w.udp then
      var s := w.sessions[k];
      w.(sessions := w.sessions[k := s.(caller := Channel(Init, t), callee := Channel(Init, t))])
    else AddToPoll(SetLastRecv(w, CallerRef(w, k), t), CallerRef(w, k))
  }

  /** `handleClose` of a TCP channel: off the loop, and backdated so that the next tick times it out. */
  function HandleClose(w: World, r: Ref): (w': World)
    requires Live(w, r)
  {
    SetLastRecv(w, r, Get(w, r).lastRecv - DEFAULT_TIMEOUT_SEC).(registered := w.registered - {r})
  }

  datatype Event =
    | Accept(key: nat, t: int)
    | FindChannel(key: nat, t: int)
    | Receive(r: Ref, t: int)
    | TcpClose(r: Ref)
    | TimerTick(t: int, order: seq<nat>)
    | LoopDrain(loop: nat)

  predicate Enumerates(order: seq<nat>, keys: set<nat>) {
    && (forall k | k in order :: k in keys)
    && (forall k | k in keys :: k in order)
    && (forall i, j | 0 <= i < j < |order| :: order[i] != order[j])
  }

  /** A step that is not enabled leaves the world alone: only a registered channel receives, only a TCP caller is
      closed by its peer, and a tick visits every session once. */
  function Step(w: World, e: Event): (w': World) {
    match e
    case Accept(k, t) => if k in w.sessions then ResetSession(w, k, t) else CreateSession(w, k, t)
    case FindChannel(k, t) =>
      if w.udp && k in w.callers && Live(w, w.callers[k]) then SetLastRecv(w, w.callers[k], t) else w
    case Receive(r, t) => if r in w.registered && Live(w, r) then SetLastRecv(w, r, t) else w
    case TcpClose(r) => if !w.udp && r.side.Caller? && Live(w, r) then HandleClose(w, r) else w
    case TimerTick(t, order) => if Enumerates(order, w.sessions.Keys) then Tick(w, t, order) else w
    case LoopDrain(loop) => Drain(w, loop)
  }

  function Run(w: World, es: seq<Event>): (w': World)
    decreases |es|
  {
    if es == [] then w else Run(Step(w, es[0]), es[1..])
  }

  // ---------------------------------------------------------------- no reference outlives its session

  /** A reference a loop may hold: its session is live, it is not closed, and it is not a UDP caller. */
  ghost predicate Held(w: World, r: Ref) {
    Live(w, r) && !Get(w, r).state.Closed? && !(w.udp && r.side.Caller?)
  }

  ghost predicate NoDangling(w: World) {
    && (forall r | r in w.registered :: Held(w, r))
    && (forall loop, r | r in PendingOf(w, loop) :: Held(w, r) && w.sessions[r.key].loop == loop)
  }

  /** Every session is filed under its own name and sits on a loop that exists, and the table that finds UDP
      callers has the same keys and leads to the callers of those sessions. */
  ghost predicate TablesAgree(w: World) {
    && (w.loops > 0 ==> w.nextLoop < w.loops)
    && (forall k | k in w.sessions ::
          && w.sessions[k].name == k && w.sessions[k].uid < w.nextUid
          && (w.loops > 0 ==> w.sessions[k].loop < w.loops))
    && (w.udp ==> w.callers.Keys == w.sessions.Keys)
    && (w.udp ==> forall k | k in w.callers :: k in w.sessions && w.callers[k] == CallerRef(w, k))
  }

  ghost predicate Safe(w: World) {
    TablesAgree(w) && NoDangling(w)
  }

  /** Changing a channel without closing it keeps the world safe. */
  lemma PutSafe(w: World, r: Ref, c: Channel)
    requires Safe(w) && Live(w, r) && (c.state.Closed? ==> Get(w, r).state.Closed?)
    ensures Safe(Put(w, r, c))
  {
    var w' := Put(w, r, c);
    assert forall loop :: PendingOf(w', loop) == PendingOf(w, loop);
    assert forall q | Held(w, q) :: Held(w', q) && w'.sessions[q.key].loop == w.sessions[q.key].loop;
  }

  lemma RegisteredSafe(w: World, rs: set<Ref>)
    requires Safe(w) && forall r | r in rs :: r in w.registered || Held(w, r)
    ensures Safe(w.(registered := rs))
  {
    var w' := w.(registered := rs);
    assert forall loop :: PendingOf(w', loop) == PendingOf(w, loop);
    assert forall q :: Held(w', q) <==> Held(w, q);
  }

  lemma PushSafe(w: World, r: Ref)
    requires Safe(w) && Held(w, r)
    ensures var loop := w.sessions[r.key].loop;
            Safe(w.(pending := w.pending[loop := PendingOf(w, loop) + [r]]))
  {
    var loop := w.sessions[r.key].loop;
    var w' := w.(pending := w.pending[loop := PendingOf(w, loop) + [r]]);
    assert forall l | l != loop :: PendingOf(w', l) == PendingOf(w, l);
    assert PendingOf(w', loop) == PendingOf(w, loop) + [r];
    assert forall q :: Held(w', q) <==> Held(w, q);
  }

  ghost predicate NotPending(w: World, r: Ref) {
    forall loop :: r !in PendingOf(w, loop)
  }

  lemma CloseKeepsLive(w: World, r: Ref, q: Ref)
    requires Live(w, r)
    ensures Live(Close(w, r), q) <==> Live(w, q)
  {
  }

  /** Closing is safe for a channel that no list refers to. */
  lemma CloseSafe(w: World, r: Ref)
    requires Safe(w) && Live(w, r) && NotPending(w, r)
    ensures Safe(Close(w, r))
  {
    var w' := Close(w, r);
    assert forall loop :: PendingOf(w', loop) == PendingOf(w, loop);
    forall q | Held(w, q) && q != r
      ensures Held(w', q) && w'.sessions[q.key].loop == w.sessions[q.key].loop
    {
    }
  }

  lemma PostTimeoutSafe(w: World, r: Ref)
    requires Safe(w) && Live(w, r)
    ensures Safe(PostTimeout(w, r))
  {
    if w.udp && r.side.Caller? {
      assert NotPending(w, r);
      CloseSafe(w, r);
    } else {
      PutSafe(w, r, Get(w, r).(state := Timeout));
      PushSafe(SetState(w, r, Timeout), r);
    }
  }

  /** What a check may change: only the two states of its own session. */
  lemma CheckSessionFrame(w: World, k: nat, t: int)
    requires k in w.sessions
    ensures var w' := CheckSession(w, k, t);
            && w'.sessions.Keys == w.sessions.Keys
            && (forall j | j in w.sessions && j != k :: w'.sessions[j] == w.sessions[j])
            && w'.sessions[k].uid == w.sessions[k].uid && w'.sessions[k].loop == w.sessions[k].loop
            && w'.sessions[k].caller.lastRecv == w.sessions[k].caller.lastRecv
            && (IsDead(w.sessions[k], t) ==> w' == w)
            && w'.udp == w.udp
  {
  }

  lemma CheckSessionSafe(w: World, k: nat, t: int)
    requires Safe(w) && k in w.sessions
    ensures Safe(CheckSession(w, k, t))
  {
    if MustPost(w.sessions[k], t) {
      PostTimeoutSafe(w, CallerRef(w, k));
      PostTimeoutSafe(PostTimeout(w, CallerRef(w, k)), CalleeRef(w, k));
    }
  }

  ghost predicate BothClosed(w: World, k: nat) {
    k in w.sessions && w.sessions[k].caller.state.Closed? && w.sessions[k].callee.state.Closed?
  }

  ghost predicate NoRepeats(ks: seq<nat>) {
    forall i, j | 0 <= i < j < |ks| :: ks[i] != ks[j]
  }

  /** The timer loop keeps the world safe, and the sessions it finds dead are closed on both sides. */
  lemma {:induction false} CheckAllSafe(w: World, ks: seq<nat>, t: int)
    requires Safe(w) && NoRepeats(ks)
    ensures var r := CheckAll(w, ks, t);
            && Safe(r.w)
            && r.w.sessions.Keys == w.sessions.Keys
            && (forall k | k in w.sessions && k !in ks :: r.w.sessions[k] == w.sessions[k])
            && (forall k | k in r.dead :: k in ks && BothClosed(r.w, k))
    decreases |ks|
  {
    if ks != [] {
      var k, tail := ks[0], ks[1..];
      assert forall j | 0 <= j < |tail| :: tail[j] == ks[j + 1];
      assert k !in tail;
      if k !in w.sessions {
        CheckAllSafe(w, tail, t);
      } else {
        CheckSessionFrame(w, k, t);
        CheckSessionSafe(w, k, t);
        CheckAllSafe(CheckSession(w, k, t), tail, t);
      }
    }
  }

  lemma DeleteSafe(w: World, k: nat)
    requires Safe(w) && BothClosed(w, k)
    ensures Safe(DeleteSession(w, k))
  {
    var w' := DeleteSession(w, k);
    assert forall loop :: PendingOf(w', loop) == PendingOf(w, loop);
    assert forall q | Held(w, q) :: q.key != k && Held(w', q);
  }

  lemma {:induction false} DeleteAllSafe(w: World, ks: seq<nat>)
    requires Safe(w) && forall k | k in ks :: k !in w.sessions || BothClosed(w, k)
    ensures Safe(DeleteAll(w, ks))
    decreases |ks|
  {
    if ks != [] {
      if ks[0] in w.sessions {
        DeleteSafe(w, ks[0]);
      } else {
        DeleteAbsent(w, ks[0]);
      }
      DeleteAllSafe(DeleteSession(w, ks[0]), ks[1..]);
    }
  }

  lemma DeleteAbsent(w: World, k: nat)
    requires Safe(w) && k !in w.sessions
    ensures Safe(DeleteSession(w, k))
  {
    var w' := DeleteSession(w, k);
    assert w'.sessions == w.sessions;
    assert w.udp ==> w'.callers == w.callers;
    assert forall loop :: PendingOf(w', loop) == PendingOf(w, loop);
    assert forall q :: Held(w', q) <==> Held(w, q);
  }

  lemma TickSafe(w: World, t: int, order: seq<nat>)
    requires Safe(w) && NoRepeats(order)
    ensures Safe(Tick(w, t, order))
  {
    CheckAllSafe(w, order, t);
    var r := CheckAll(w, order, t);
    DeleteAllSafe(r.w, r.dead);
  }

  lemma {:induction false} CloseAllSafe(w: World, rs: seq<Ref>)
    requires Safe(w) && forall r | r in rs :: NotPending(w, r)
    ensures Safe(CloseAll(w, rs))
    decreases |rs|
  {
    if rs != [] {
      var w' := if Live(w, rs[0]) then Close(w, rs[0]) else w;
      if Live(w, rs[0]) {
        CloseSafe(w, rs[0]);
      }
      assert forall loop :: PendingOf(w', loop) == PendingOf(w, loop);
      assert forall r | NotPending(w, r) :: NotPending(w', r);
      CloseAllSafe(w', rs[1..]);
    }
  }

  lemma DrainSafe(w: World, loop: nat)
    requires Safe(w)
    ensures Safe(Drain(w, loop))
  {
    var w', rs := w.(pending := w.pending[loop := []]), PendingOf(w, loop);
    assert forall l | l != loop :: PendingOf(w', l) == PendingOf(w, l);
    assert PendingOf(w', loop) == [];
    assert forall q :: Held(w', q) <==> Held(w, q);
    assert Safe(w');
    forall r | r in rs
      ensures NotPending(w', r)
    {
      assert r in PendingOf(w, loop) && w.sessions[r.key].loop == loop;
    }
    CloseAllSafe(w', rs);
  }

  lemma AddToPollSafe(w: World, r: Ref)
    requires Safe(w) && Live(w, r) && !(w.udp && r.side.Caller?)
    ensures Safe(AddToPoll(w, r))
  {
    PutSafe(w, r, Get(w, r).(state := Rw));
    var w1 := SetState(w, r, Rw);
    assert Held(w1, r);
    RegisteredSafe(w1, w.registered + {r});
  }

  lemma NewSessionSafe(w: World, k: nat, t: int)
    requires Safe(w) && k !in w.sessions
    ensures Safe(NewSession(w, k, t))
  {
    var w' := NewSession(w, k, t);
    assert forall loop :: PendingOf(w', loop) == PendingOf(w, loop);
    assert forall q | Held(w, q) :: Held(w', q) && w'.sessions[q.key].loop == w.sessions[q.key].loop;
  }

  lemma CreateSafe(w: World, k: nat, t: int)
    requires Safe(w) && k !in w.sessions
    ensures Safe(CreateSession(w, k, t))
  {
    NewSessionSafe(w, k, t);
    var w1 := NewSession(w, k, t);
    if w.udp {
      AddToPollSafe(w1, CalleeRef(w1, k));
    } else {
      AddToPollSafe(w1, CallerRef(w1, k));
      var w2 := AddToPoll(w1, CallerRef(w1, k));
      AddToPollSafe(w2, CalleeRef(w2, k));
    }
  }

  lemma ResetSafe(w: World, k: nat, t: int)
    requires Safe(w) && k in w.sessions
    ensures Safe(ResetSession(w, k, t))
  {
    var er := CallerRef(w, k);
    if w.udp {
      PutSafe(w, er, Channel(Init, t));
      var w1 := Put(w, er, Channel(Init, t));
      PutSafe(w1, CalleeRef(w1, k), Channel(Init, t));
      assert Put(w1, CalleeRef(w1, k), Channel(Init, t)) == ResetSession(w, k, t);
    } else {
      PutSafe(w, er, Get(w, er).(lastRecv := t));
      AddToPollSafe(SetLastRecv(w, er, t), er);
    }
  }

  lemma StepSafe(w: World, e: Event)
    requires Safe(w)
    ensures Safe(Step(w, e))
  {
    match e
    case Accept(k, t) => if k in w.sessions { ResetSafe(w, k, t); } else { CreateSafe(w, k, t); }
    case FindChannel(k, t) =>
      if w.udp && k in w.callers {
        PutSafe(w, w.callers[k], Get(w, w.callers[k]).(lastRecv := t));
      }
    case Receive(r, t) => if r in w.registered { PutSafe(w, r, Get(w, r).(lastRecv := t)); }
    case TcpClose(r) =>
      if !w.udp && r.side.Caller? && Live(w, r) {
        var c := Get(w, r);
        PutSafe(w, r, c.(lastRecv := c.lastRecv - DEFAULT_TIMEOUT_SEC));
        RegisteredSafe(SetLastRecv(w, r, c.lastRecv - DEFAULT_TIMEOUT_SEC), w.registered - {r});
      }
    case TimerTick(t, order) => if Enumerates(order, w.sessions.Keys) { TickSafe(w, t, order); }
    case LoopDrain(loop) => DrainSafe(w, loop);
  }

  /** In every reachable state, whatever the interleaving, every channel that a loop watches or has on its
      pending-close list belongs to a session that is still there, and the tables agree. */
  lemma {:induction false} RunSafe(w: World, es: seq<Event>)
    requires Safe(w)
    ensures Safe(Run(w, es))
    decreases |es|
  {
    if es != [] {
      StepSafe(w, es[0]);
      RunSafe(Step(w, es[0]), es[1..]);
    }
  }

  lemma ReachableIsSafe(udp: bool, loops: nat, es: seq<Event>)
    ensures Safe(Run(Start(udp, loops), es))
  {
    RunSafe(Start(udp, loops), es);
  }

  // ---------------------------------------------------------------- what a tick and a drain do to one session

  /** One session after the timer has looked at it. */
  function CheckedSession(udp: bool, s: Session, t: int): (s': Session) {
    if MustPost(s, t)
    then s.(caller := s.caller.(state := if udp then Closed else Timeout),
            callee := s.callee.(state := Timeout))
    else s
  }

  ghost predicate PendingGrows(w: World, w': World) {
    forall loop, r | r in PendingOf(w, loop) :: r in PendingOf(w', loop)
  }

  ghost predicate NothingNewFor(w: World, w': World, k: nat) {
    forall loop, r | r in PendingOf(w', loop) && r.key == k :: r in PendingOf(w, loop)
  }

  /** Both channels of a session that was posted are on the list of its loop; a UDP caller needs none. */
  ghost predicate Posted(w: World, k: nat)
    requires k in w.sessions
  {
    var loop := w.sessions[k].loop;
    CalleeRef(w, k) in PendingOf(w, loop) && (w.udp || CallerRef(w, k) in PendingOf(w, loop))
  }

  lemma CheckSessionEffect(w: World, k: nat, t: int)
    requires k in w.sessions
    ensures var w' := CheckSession(w, k, t);
            && w'.sessions == w.sessions[k := CheckedSession(w.udp, w.sessions[k], t)]
            && w'.udp == w.udp && PendingGrows(w, w')
            && (if MustPost(w.sessions[k], t) then Posted(w', k) else w' == w)
            && (forall j | j != k :: NothingNewFor(w, w', j))
  {
    var w' := CheckSession(w, k, t);
    if MustPost(w.sessions[k], t) {
      var loop := w.sessions[k].loop;
      assert forall l | l != loop :: PendingOf(w', l) == PendingOf(w, l);
      assert PendingOf(w', loop) == PendingOf(w, loop)
          + (if w.udp then [] else [CallerRef(w, k)]) + [CalleeRef(w, k)];
    }
  }

  /** The session `k` after the timer loop: what one check does, as if it were alone. */
  ghost predicate TickEffect(w: World, w': World, k: nat, t: int)
    requires k in w.sessions
  {
    && w'.udp == w.udp && PendingGrows(w, w')
    && k in w'.sessions && w'.sessions[k] == CheckedSession(w.udp, w.sessions[k], t)
    && (if MustPost(w.sessions[k], t) then Posted(w', k) else NothingNewFor(w, w', k))
  }

  /** Nothing happens to session `k` but that other sessions are put on the lists. */
  ghost predicate Untouched(w: World, w': World, k: nat) {
    && w'.udp == w.udp && PendingGrows(w, w') && NothingNewFor(w, w', k)
    && k in w.sessions && k in w'.sessions && w'.sessions[k] == w.sessions[k]
  }

  lemma EffectThenUntouched(w: World, w1: World, w2: World, k: nat, t: int)
    requires k in w.sessions && TickEffect(w, w1, k, t) && Untouched(w1, w2, k)
    ensures TickEffect(w, w2, k, t)
  {
  }

  lemma UntouchedThenEffect(w: World, w1: World, w2: World, k: nat, t: int)
    requires Untouched(w, w1, k) && TickEffect(w1, w2, k, t)
    ensures TickEffect(w, w2, k, t)
  {
  }

  lemma UntouchedTwice(w: World, w1: World, w2: World, k: nat)
    requires Untouched(w, w1, k) && Untouched(w1, w2, k)
    ensures Untouched(w, w2, k)
  {
  }

  lemma {:induction false} CheckAllEffect(w: World, ks: seq<nat>, t: int, k: nat)
    requires k in w.sessions && NoRepeats(ks)
    ensures var r := CheckAll(w, ks, t);
            && (k !in ks ==> Untouched(w, r.w, k) && k !in r.dead)
            && (k in ks ==> TickEffect(w, r.w, k, t) && (k in r.dead <==> IsDead(w.sessions[k], t)))
    decreases |ks|
  {
    if ks != [] {
      var j, tail := ks[0], ks[1..];
      assert forall i | 0 <= i < |tail| :: tail[i] == ks[i + 1];
      assert j !in tail && (k in ks <==> k == j || k in tail);
      if j !in w.sessions {
        CheckAllEffect(w, tail, t, k);
      } else {
        var w1 := CheckSession(w, j, t);
        CheckSessionEffect(w, j, t);
        CheckAllEffect(w1, tail, t, k);
        if k == j {
          assert TickEffect(w, w1, k, t);
          EffectThenUntouched(w, w1, CheckAll(w, ks, t).w, k, t);
        } else if k in tail {
          UntouchedThenEffect(w, w1, CheckAll(w, ks, t).w, k, t);
        } else {
          UntouchedTwice(w, w1, CheckAll(w, ks, t).w, k);
        }
      }
    }
  }

  ghost predicate SameCounters(w: World, w': World) {
    w'.nextUid == w.nextUid && w'.nextLoop == w.nextLoop && w'.loops == w.loops
  }

  lemma {:induction false} DeleteAllEffect(w: World, ks: seq<nat>)
    ensures var w' := DeleteAll(w, ks);
            && w'.udp == w.udp && w'.pending == w.pending && w'.registered == w.registered && SameCounters(w, w')
            && w'.sessions == w.sessions - (set k | k in ks)
    decreases |ks|
  {
    if ks != [] {
      DeleteAllEffect(DeleteSession(w, ks[0]), ks[1..]);
    }
  }

  /** A tick deletes exactly the sessions that are silent and closed on both sides, and posts the silent ones
      that were not posted yet. */
  lemma TickExactly(w: World, t: int, order: seq<nat>, k: nat)
    requires Enumerates(order, w.sessions.Keys) && k in w.sessions
    ensures var w' := Tick(w, t, order);
            && (k !in w'.sessions <==> IsDead(w.sessions[k], t))
            && (!IsDead(w.sessions[k], t) ==> TickEffect(w, w', k, t))
  {
    CheckAllEffect(w, order, t, k);
    var r := CheckAll(w, order, t);
    DeleteAllEffect(r.w, r.dead);
    var w' := Tick(w, t, order);
    assert forall loop :: PendingOf(w', loop) == PendingOf(r.w, loop);
  }

  function ClosedIf(c: Channel, b: bool): (c': Channel) {
    if b then c.(state := Closed) else c
  }

  lemma {:induction false} CloseAllEffect(w: World, rs: seq<Ref>, k: nat)
    requires k in w.sessions
    ensures var w', s := CloseAll(w, rs), w.sessions[k];
            && w'.sessions.Keys == w.sessions.Keys && w'.pending == w.pending && w'.udp == w.udp
            && w'.sessions[k] == s.(caller := ClosedIf(s.caller, CallerRef(w, k) in rs),
                                    callee := ClosedIf(s.callee, CalleeRef(w, k) in rs))
    decreases |rs|
  {
    if rs != [] {
      var w' := if Live(w, rs[0]) then Close(w, rs[0]) else w;
      assert w'.sessions.Keys == w.sessions.Keys;
      CloseAllEffect(w', rs[1..], k);
      assert rs == [rs[0]] + rs[1..];
    }
  }

  /** A drain closes what was on the list of the loop, and nothing else. */
  lemma DrainExactly(w: World, loop: nat, k: nat)
    requires k in w.sessions
    ensures var w', s, rs := Drain(w, loop), w.sessions[k], PendingOf(w, loop);
            && w'.sessions.Keys == w.sessions.Keys && w'.udp == w.udp
            && w'.sessions[k] == s.(caller := ClosedIf(s.caller, CallerRef(w, k) in rs),
                                    callee := ClosedIf(s.callee, CalleeRef(w, k) in rs))
            && PendingOf(w', loop) == []
            && forall l | l != loop :: PendingOf(w', l) == PendingOf(w, l)
  {
    CloseAllEffect(w.(pending := w.pending[loop := []]), PendingOf(w, loop), k);
  }

  // ---------------------------------------------------------------- silent sessions go

  /** A caller that was posted is still on the list; and once the caller is posted or closed, the callee is
      closed or on the list. */
  ghost predicate WindingDown(w: World, k: nat)
    requires k in w.sessions
  {
    var s, rs := w.sessions[k], PendingOf(w, w.sessions[k].loop);
    && (s.caller.state.Timeout? ==> CallerRef(w, k) in rs)
    && (CallerRef(w, k) in rs || s.caller.state.Timeout? || s.caller.state.Closed? ==>
          s.callee.state.Closed? || CalleeRef(w, k) in rs)
  }

  ghost predicate Orderly(w: World) {
    forall k | k in w.sessions :: WindingDown(w, k)
  }

  lemma TickOrderly(w: World, t: int, order: seq<nat>)
    requires Safe(w) && Orderly(w) && Enumerates(order, w.sessions.Keys)
    ensures Orderly(Tick(w, t, order))
  {
    var w' := Tick(w, t, order);
    TickSafe(w, t, order);
    forall k | k in w'.sessions
      ensures WindingDown(w', k)
    {
      TickKeys(w, t, order);
      TickExactly(w, t, order, k);
    }
  }

  lemma TickKeys(w: World, t: int, order: seq<nat>)
    requires Safe(w) && Enumerates(order, w.sessions.Keys)
    ensures Tick(w, t, order).sessions.Keys <= w.sessions.Keys
  {
    CheckAllSafe(w, order, t);
    DeleteAllEffect(CheckAll(w, order, t).w, CheckAll(w, order, t).dead);
  }

  lemma DrainOrderly(w: World, loop: nat)
    requires Safe(w) && Orderly(w)
    ensures Orderly(Drain(w, loop))
  {
    var w' := Drain(w, loop);
    forall k | k in w'.sessions
      ensures WindingDown(w', k)
    {
      DrainKeys(w, loop);
      DrainExactly(w, loop, k);
      var s := w.sessions[k];
      assert CallerRef(w, k) in PendingOf(w, loop) ==> s.loop == loop;
      assert CalleeRef(w, k) in PendingOf(w, loop) ==> s.loop == loop;
    }
  }

  lemma {:induction false} DrainKeys(w: World, loop: nat)
    ensures Drain(w, loop).sessions.Keys == w.sessions.Keys
  {
    CloseAllKeys(w.(pending := w.pending[loop := []]), PendingOf(w, loop));
  }

  lemma {:induction false} CloseAllKeys(w: World, rs: seq<Ref>)
    ensures CloseAll(w, rs).sessions.Keys == w.sessions.Keys
    decreases |rs|
  {
    if rs != [] {
      var w' := if Live(w, rs[0]) then Close(w, rs[0]) else w;
      assert w'.sessions.Keys == w.sessions.Keys;
      CloseAllKeys(w', rs[1..]);
    }
  }

  /** A step that leaves the lists and the states of all other sessions alone only has to mind its own. */
  lemma OneSessionOrderly(w: World, w': World, k: nat)
    requires Orderly(w) && w'.pending == w.pending && k in w'.sessions && WindingDown(w', k)
    requires forall j | j in w'.sessions && j != k :: j in w.sessions && w'.sessions[j] == w.sessions[j]
    ensures Orderly(w')
  {
    forall j | j in w'.sessions
      ensures WindingDown(w', j)
    {
      assert PendingOf(w', w'.sessions[j].loop) == PendingOf(w, w'.sessions[j].loop);
      assert j != k ==> WindingDown(w, j);
    }
  }

  /** New times alone change nothing. */
  lemma LastRecvOrderly(w: World, r: Ref, t: int)
    requires Orderly(w) && Live(w, r)
    ensures Orderly(SetLastRecv(w, r, t))
  {
    var w' := SetLastRecv(w, r, t);
    assert WindingDown(w, r.key);
    assert PendingOf(w', w'.sessions[r.key].loop) == PendingOf(w, w.sessions[r.key].loop);
    OneSessionOrderly(w, w', r.key);
  }

  lemma ResetOrderly(w: World, k: nat, t: int)
    requires Safe(w) && Orderly(w) && k in w.sessions
    ensures Orderly(ResetSession(w, k, t))
  {
    var w', loop := ResetSession(w, k, t), w.sessions[k].loop;
    assert PendingOf(w', loop) == PendingOf(w, loop);
    assert WindingDown(w, k);
    assert w.udp ==> CallerRef(w, k) !in PendingOf(w, loop);
    OneSessionOrderly(w, w', k);
  }

  lemma CreateOrderly(w: World, k: nat, t: int)
    requires Safe(w) && Orderly(w) && k !in w.sessions
    ensures Orderly(CreateSession(w, k, t))
  {
    var w', r := CreateSession(w, k, t), Ref(k, w.nextUid, Caller);
    assert w'.pending == w.pending && CallerRef(w', k) == r;
    assert r !in PendingOf(w', w.nextLoop) by {
      assert PendingOf(w', w.nextLoop) == PendingOf(w, w.nextLoop);
      assert !Held(w, r);
    }
    OneSessionOrderly(w, w', k);
  }

  lemma StepOrderly(w: World, e: Event)
    requires Safe(w) && Orderly(w)
    ensures Orderly(Step(w, e))
  {
    match e
    case Accept(k, t) => if k in w.sessions { ResetOrderly(w, k, t); } else { CreateOrderly(w, k, t); }
    case FindChannel(k, t) =>
      if w.udp && k in w.callers {
        LastRecvOrderly(w, w.callers[k], t);
      }
    case Receive(r, t) => if r in w.registered { LastRecvOrderly(w, r, t); }
    case TcpClose(r) =>
      if !w.udp && r.side.Caller? && Live(w, r) {
        var t := Get(w, r).lastRecv - DEFAULT_TIMEOUT_SEC;
        LastRecvOrderly(w, r, t);
        RegisteredOrderly(SetLastRecv(w, r, t), w.registered - {r});
      }
    case TimerTick(t, order) => if Enumerates(order, w.sessions.Keys) { TickOrderly(w, t, order); }
    case LoopDrain(loop) => DrainOrderly(w, loop);
  }

  lemma RegisteredOrderly(w: World, rs: set<Ref>)
    requires Orderly(w)
    ensures Orderly(w.(registered := rs))
  {
    var w' := w.(registered := rs);
    forall k | k in w'.sessions
      ensures WindingDown(w', k)
    {
      assert WindingDown(w, k) && PendingOf(w', w.sessions[k].loop) == PendingOf(w, w.sessions[k].loop);
    }
  }

  lemma {:induction false} RunOrderly(w: World, es: seq<Event>)
    requires Safe(w) && Orderly(w)
    ensures Safe(Run(w, es)) && Orderly(Run(w, es))
    decreases |es|
  {
    if es != [] {
      StepSafe(w, es[0]);
      StepOrderly(w, es[0]);
      RunOrderly(Step(w, es[0]), es[1..]);
    }
  }

  lemma TickThenDrainCloses(w: World, k: nat, t: int, order: seq<nat>)
    requires Safe(w) && Orderly(w) && k in w.sessions && Silent(w.sessions[k], t)
    requires Enumerates(order, w.sessions.Keys) && k in Tick(w, t, order).sessions
    ensures var w2 := Drain(Tick(w, t, order), w.sessions[k].loop);
            BothClosed(w2, k) && w2.sessions[k].caller.lastRecv == w.sessions[k].caller.lastRecv
  {
    var w1, loop := Tick(w, t, order), w.sessions[k].loop;
    TickExactly(w, t, order, k);
    assert WindingDown(w, k);
    assert w1.sessions[k].caller.state.Closed? || CallerRef(w1, k) in PendingOf(w1, loop);
    assert w1.sessions[k].callee.state.Closed? || CalleeRef(w1, k) in PendingOf(w1, loop);
    DrainExactly(w1, loop, k);
  }

  /** A tick, the drain of the session's loop, and another tick, with each tick in some order of the map. */
  ghost predicate TickDrainTick(w: World, k: nat, t1: int, order1: seq<nat>, t2: int, order2: seq<nat>)
    requires k in w.sessions
  {
    && Enumerates(order1, w.sessions.Keys)
    && Enumerates(order2, Drain(Tick(w, t1, order1), w.sessions[k].loop).sessions.Keys)
  }

  lemma SilentIsDeleted(w: World, k: nat, t1: int, order1: seq<nat>, t2: int, order2: seq<nat>)
    requires Safe(w) && Orderly(w) && k in w.sessions && Silent(w.sessions[k], t1) && Silent(w.sessions[k], t2)
    requires TickDrainTick(w, k, t1, order1, t2, order2)
    ensures k !in Run(w, [TimerTick(t1, order1), LoopDrain(w.sessions[k].loop), TimerTick(t2, order2)]).sessions
  {
    var w1, loop := Tick(w, t1, order1), w.sessions[k].loop;
    var w2 := Drain(w1, loop);
    assert k !in Tick(w2, t2, order2).sessions by {
      if k in w1.sessions {
        TickThenDrainCloses(w, k, t1, order1);
        TickExactly(w2, t2, order2, k);
      } else {
        TickSafe(w, t1, order1);
        DrainKeys(w1, loop);
        DrainSafe(w1, loop);
        TickKeys(w2, t2, order2);
      }
    }
    RunThree(w, TimerTick(t1, order1), LoopDrain(loop), TimerTick(t2, order2));
  }

  /** From any reachable state, a session whose caller has been silent for 30 seconds is gone after a tick, the
      drain of its loop and another tick, for UDP and TCP sessions alike. */
  lemma SilentSessionIsDeleted(
    udp: bool, loops: nat, es: seq<Event>, k: nat, t1: int, order1: seq<nat>, t2: int, order2: seq<nat>)
    requires var w := Run(Start(udp, loops), es);
             && k in w.sessions && t1 - w.sessions[k].caller.lastRecv >= 30 && t1 <= t2
             && TickDrainTick(w, k, t1, order1, t2, order2)
    ensures var w := Run(Start(udp, loops), es);
            var loop := w.sessions[k].loop;
            k !in Run(w, [TimerTick(t1, order1), LoopDrain(loop), TimerTick(t2, order2)]).sessions
  {
    RunOrderly(Start(udp, loops), es);
    SilentIsDeleted(Run(Start(udp, loops), es), k, t1, order1, t2, order2);
  }

  /** From any reachable state, a TCP session whose connection the peer closes is gone after a tick, the drain of
      its loop and another tick, without waiting for the timeout. */
  lemma PeerClosedIsDeleted(
    loops: nat, es: seq<Event>, r: Ref, t1: int, order1: seq<nat>, t2: int, order2: seq<nat>)
    requires var w := Run(Start(false, loops), es);
             && r.side.Caller? && Live(w, r) && Get(w, r).lastRecv <= t1 <= t2
             && TickDrainTick(HandleClose(w, r), r.key, t1, order1, t2, order2)
    ensures var w := Step(Run(Start(false, loops), es), TcpClose(r));
            && r.key in w.sessions && r !in w.registered
            && var loop := w.sessions[r.key].loop;
               r.key !in Run(w, [TimerTick(t1, order1), LoopDrain(loop), TimerTick(t2, order2)]).sessions
  {
    var w := Run(Start(false, loops), es);
    RunOrderly(Start(false, loops), es);
    RunUdp(Start(false, loops), es);
    StepSafe(w, TcpClose(r));
    StepOrderly(w, TcpClose(r));
    SilentIsDeleted(Step(w, TcpClose(r)), r.key, t1, order1, t2, order2);
  }

  lemma RunThree(w: World, a: Event, b: Event, c: Event)
    ensures Run(w, [a, b, c]) == Step(Step(Step(w, a), b), c)
  {
    assert [a, b, c][1..] == [b, c] && [b, c][1..] == [c] && [c][1..] == [];
    assert Run(Step(w, a), [b, c]) == Run(Step(Step(w, a), b), [c]);
    assert Run(Step(Step(Step(w, a), b), c), []) == Step(Step(Step(w, a), b), c);
  }

  // ---------------------------------------------------------------- a found channel stays

  /** Every event happens at or after `t`, and no tick as late as `t` plus the timeout. */
  predicate Within(e: Event, t: int) {
    match e
    case Accept(_, u) => t <= u
    case FindChannel(_, u) => t <= u
    case Receive(_, u) => t <= u
    case TcpClose(_) => true
    case TimerTick(u, _) => t <= u < t + DEFAULT_TIMEOUT_SEC
    case LoopDrain(_) => true
  }

  ghost predicate Fresh(w: World, k: nat, uid: nat, t: int) {
    k in w.sessions && w.sessions[k].uid == uid && w.sessions[k].caller.lastRecv >= t
  }

  /** The event is no tick whose time lies before the receipt that the session `k` has stored. */
  predicate NotBefore(w: World, e: Event, k: nat) {
    e.TimerTick? && Enumerates(e.order, w.sessions.Keys) && k in w.sessions ==> w.sessions[k].caller.lastRecv <= e.t
  }

  /** No tick of the run is behind the receipts of `k`. */
  predicate Timely(w: World, es: seq<Event>, k: nat)
    decreases |es|
  {
    es == [] || (NotBefore(w, es[0], k) && Timely(Step(w, es[0]), es[1..], k))
  }

  /** An open session received from within the last 30 seconds is left alone by a tick if and only if the time of
      the tick was not read before the receipt. */
  lemma TickSparesIff(w: World, u: int, order: seq<nat>, k: nat)
    requires Enumerates(order, w.sessions.Keys) && k in w.sessions && Open(w.sessions[k].caller)
    requires u - w.sessions[k].caller.lastRecv < 30
    ensures var w' := Tick(w, u, order);
            k in w'.sessions && w'.sessions[k] == w.sessions[k] <==> w.sessions[k].caller.lastRecv <= u
  {
    TickExactly(w, u, order, k);
  }

  /** A TCP caller is backdated when its peer closes, and a tick may come too late; nothing else makes a session
      older. */
  lemma StepKeepsFresh(w: World, e: Event, k: nat, uid: nat, t: int)
    requires Safe(w) && Fresh(w, k, uid, t) && Within(e, t) && NotBefore(w, e, k)
    requires !w.udp ==> e != TcpClose(Ref(k, uid, Caller))
    ensures Step(w, e).udp == w.udp && Fresh(Step(w, e), k, uid, t)
  {
    match e
    case TimerTick(u, order) =>
      if Enumerates(order, w.sessions.Keys) {
        TickExactly(w, u, order, k);
      }
    case LoopDrain(loop) => DrainExactly(w, loop, k);
    case _ =>
  }

  lemma {:induction false} RunKeepsFresh(w: World, es: seq<Event>, k: nat, uid: nat, t: int)
    requires Safe(w) && Fresh(w, k, uid, t) && Timely(w, es, k)
    requires forall i | 0 <= i < |es| :: Within(es[i], t) && (!w.udp ==> es[i] != TcpClose(Ref(k, uid, Caller)))
    ensures Fresh(Run(w, es), k, uid, t)
    decreases |es|
  {
    if es != [] {
      StepKeepsFresh(w, es[0], k, uid, t);
      StepSafe(w, es[0]);
      RunKeepsFresh(Step(w, es[0]), es[1..], k, uid, t);
    }
  }

  /** The channel that `findChannel` returns at time `t` is not deleted before `t` plus 30 seconds, whatever
      else happens in between, as long as no tick is behind a receipt. */
  lemma FoundChannelSurvives(udp: bool, loops: nat, before: seq<Event>, k: nat, t: int, after: seq<Event>)
    requires var w := Run(Start(udp, loops), before);
             udp && k in w.callers && Timely(Step(w, FindChannel(k, t)), after, k)
    requires forall i | 0 <= i < |after| :: Within(after[i], t)
    ensures var w := Run(Start(udp, loops), before);
            Live(Run(Step(w, FindChannel(k, t)), after), w.callers[k])
  {
    var w := Run(Start(udp, loops), before);
    RunSafe(Start(udp, loops), before);
    RunUdp(Start(udp, loops), before);
    var w1 := Step(w, FindChannel(k, t));
    StepSafe(w, FindChannel(k, t));
    RunKeepsFresh(w1, after, k, w.sessions[k].uid, t);
  }

  /** Without that the channel can be gone at once: the timer reads its clock at `t`, the caller is heard at
      `t + 1`, and this tick with the next drain and another such tick deletes the session. */
  lemma LateTicksDelete(loops: nat, k: nat, t: int)
    ensures var w := Run(Start(true, loops), [Accept(k, t), FindChannel(k, t + 1)]);
            var w1 := Step(w, TimerTick(t, [k]));
            && k in w.sessions && w.sessions[k].caller == Channel(Init, t + 1)
            && k in w1.sessions && w1.sessions[k].caller.state.Closed?
            && k !in Run(w, [TimerTick(t, [k]), LoopDrain(0), TimerTick(t, [k])]).sessions
  {
    var w := HeardAgain(loops, k, t);
    assert Enumerates([k], w.sessions.Keys);
    TickExactly(w, t, [k], k);
    TickKeys(w, t, [k]);
    DrainKeys(Tick(w, t, [k]), 0);
    SilentIsDeleted(w, k, t, [k], t, [k]);
  }

  lemma HeardAgain(loops: nat, k: nat, t: int) returns (w: World)
    ensures w == Run(Start(true, loops), [Accept(k, t), FindChannel(k, t + 1)])
    ensures Safe(w) && Orderly(w) && w.udp && w.sessions.Keys == {k}
    ensures w.sessions[k].loop == 0 && w.sessions[k].caller == Channel(Init, t + 1)
    ensures w.sessions[k].callee.state.Rw?
  {
    var w0, find := Start(true, loops), FindChannel(k, t + 1);
    var w1 := Step(w0, Accept(k, t));
    w := Step(w1, find);
    FirstAccepted(true, loops, k, t);
    RunTwo(w0, Accept(k, t), find);
    RunOrderly(w0, [Accept(k, t), find]);
    assert w1.callers[k] == CallerRef(w1, k) && w.sessions.Keys == {k};
  }

  lemma RunTwo(w: World, a: Event, b: Event)
    ensures Run(w, [a, b]) == Step(Step(w, a), b)
  {
    assert [a, b][1..] == [b] && [b][1..] == [];
    assert Run(Step(Step(w, a), b), []) == Step(Step(w, a), b);
  }

  // ---------------------------------------------------------------- when ticks are not behind

  /** The times of the events, in the order of the run, never go back, nor do they start before `now`. */
  predicate InOrder(es: seq<Event>, now: int)
    decreases |es|
  {
    es == [] || (now <= TimeOf(es[0], now) && InOrder(es[1..], TimeOf(es[0], now)))
  }

  function TimeOf(e: Event, now: int): (t: int) {
    match e
    case Accept(_, t) => t
    case FindChannel(_, t) => t
    case Receive(_, t) => t
    case TcpClose(_) => now
    case TimerTick(t, _) => t
    case LoopDrain(_) => now
  }

  /** Nothing was received in the future. */
  ghost predicate Past(w: World, now: int) {
    forall k | k in w.sessions :: w.sessions[k].caller.lastRecv <= now
  }

  lemma StepPast(w: World, e: Event, now: int)
    requires Safe(w) && Past(w, now) && now <= TimeOf(e, now)
    ensures Past(Step(w, e), TimeOf(e, now))
  {
    match e
    case TimerTick(t, order) =>
      if Enumerates(order, w.sessions.Keys) {
        TickKeys(w, t, order);
        forall k | k in Tick(w, t, order).sessions
          ensures Tick(w, t, order).sessions[k].caller.lastRecv <= t
        {
          TickExactly(w, t, order, k);
        }
      }
    case LoopDrain(loop) =>
      DrainKeys(w, loop);
      forall k | k in w.sessions
        ensures Drain(w, loop).sessions[k].caller.lastRecv <= now
      {
        DrainExactly(w, loop, k);
      }
    case _ =>
  }

  lemma {:induction false} OrderedIsTimely(w: World, es: seq<Event>, now: int, k: nat)
    requires Safe(w) && Past(w, now) && InOrder(es, now)
    ensures Timely(w, es, k)
    decreases |es|
  {
    if es != [] {
      StepSafe(w, es[0]);
      StepPast(w, es[0], now);
      OrderedIsTimely(Step(w, es[0]), es[1..], TimeOf(es[0], now), k);
    }
  }

  lemma {:induction false} TimelyRest(w: World, es: seq<Event>, fs: seq<Event>, k: nat)
    requires Timely(w, es + fs, k)
    ensures Timely(Run(w, es), fs, k)
    decreases |es|
  {
    if es == [] {
      assert es + fs == fs;
    } else {
      assert (es + fs)[1..] == es[1..] + fs;
      TimelyRest(Step(w, es[0]), es[1..], fs, k);
    }
  }

  /** If every step acts on a clock that it reads itself, in the order of the steps, no tick is behind. */
  lemma ReachableIsTimely(udp: bool, loops: nat, before: seq<Event>, after: seq<Event>, now: int, k: nat)
    requires InOrder(before + after, now)
    ensures Timely(Run(Start(udp, loops), before), after, k)
  {
    OrderedIsTimely(Start(udp, loops), before + after, now, k);
    TimelyRest(Start(udp, loops), before, after, k);
  }

  lemma StepUdp(w: World, e: Event)
    ensures Step(w, e).udp == w.udp
  {
    match e
    case TimerTick(t, order) =>
      CheckAllUdp(w, order, t);
      DeleteAllEffect(CheckAll(w, order, t).w, CheckAll(w, order, t).dead);
    case LoopDrain(loop) => CloseAllUdp(w.(pending := w.pending[loop := []]), PendingOf(w, loop));
    case _ =>
  }

  lemma {:induction false} CheckAllUdp(w: World, ks: seq<nat>, t: int)
    ensures CheckAll(w, ks, t).w.udp == w.udp
    decreases |ks|
  {
    if ks != [] {
      CheckAllUdp(if ks[0] in w.sessions then CheckSession(w, ks[0], t) else w, ks[1..], t);
    }
  }

  lemma {:induction false} CloseAllUdp(w: World, rs: seq<Ref>)
    ensures CloseAll(w, rs).udp == w.udp
    decreases |rs|
  {
    if rs != [] {
      CloseAllUdp(if Live(w, rs[0]) then Close(w, rs[0]) else w, rs[1..]);
    }
  }

  lemma {:induction false} RunUdp(w: World, es: seq<Event>)
    ensures Run(w, es).udp == w.udp
    decreases |es|
  {
    if es != [] {
      StepUdp(w, es[0]);
      RunUdp(Step(w, es[0]), es[1..]);
    }
  }

  // ---------------------------------------------------------------- when a callee is watched

  /** The event is the drain of a loop that has `r` on its list. */
  predicate Drains(w: World, e: Event, r: Ref) {
    e.LoopDrain? && r in PendingOf(w, e.loop)
  }

  /** At some point of the run a drain finds `r` on its list. */
  predicate DrainedIn(w: World, es: seq<Event>, r: Ref)
    decreases |es|
  {
    es != [] && (Drains(w, es[0], r) || DrainedIn(Step(w, es[0]), es[1..], r))
  }

  /** The timer takes nothing off a loop: the one channel it closes itself, the UDP caller, is on none. */
  lemma {:induction false} CheckAllRegistered(w: World, ks: seq<nat>, t: int)
    ensures var w' := CheckAll(w, ks, t).w;
            && SameCounters(w, w')
            && forall r: Ref | !(w.udp && r.side.Caller?) :: r in w'.registered <==> r in w.registered
    decreases |ks|
  {
    if ks != [] {
      CheckAllRegistered(if ks[0] in w.sessions then CheckSession(w, ks[0], t) else w, ks[1..], t);
    }
  }

  lemma TickRegistered(w: World, t: int, order: seq<nat>)
    ensures var w' := Tick(w, t, order);
            && SameCounters(w, w')
            && forall r: Ref | !(w.udp && r.side.Caller?) :: r in w'.registered <==> r in w.registered
  {
    CheckAllRegistered(w, order, t);
    DeleteAllEffect(CheckAll(w, order, t).w, CheckAll(w, order, t).dead);
  }

  lemma {:induction false} CloseAllRegistered(w: World, rs: seq<Ref>, r: Ref)
    ensures var w' := CloseAll(w, rs);
            && SameCounters(w, w')
            && (r in w'.registered <==> r in w.registered && !(r in rs && Live(w, r)))
    decreases |rs|
  {
    if rs != [] {
      var w' := if Live(w, rs[0]) then Close(w, rs[0]) else w;
      CloseAllRegistered(w', rs[1..], r);
      assert r in rs <==> r == rs[0] || r in rs[1..];
      assert Live(w', r) <==> Live(w, r);
    }
  }

  lemma DrainRegistered(w: World, loop: nat, r: Ref)
    requires Safe(w)
    ensures var w' := Drain(w, loop);
            && SameCounters(w, w')
            && (r in w'.registered <==> r in w.registered && r !in PendingOf(w, loop))
  {
    CloseAllRegistered(w.(pending := w.pending[loop := []]), PendingOf(w, loop), r);
    assert r in PendingOf(w, loop) ==> Held(w, r);
  }

  lemma StepCallee(w: World, e: Event, r: Ref)
    requires Safe(w) && r.side.Callee? && r.uid < w.nextUid
    ensures r in Step(w, e).registered <==> r in w.registered && !Drains(w, e, r)
    ensures r.uid < Step(w, e).nextUid
  {
    match e
    case TimerTick(t, order) => TickRegistered(w, t, order);
    case LoopDrain(loop) => DrainRegistered(w, loop, r);
    case _ =>
  }

  /** Over every run and for both managers: a callee that exists is on its loop at the end exactly when it was at
      the start and no drain has found it on its list. Nothing puts it back. */
  lemma {:induction false} CalleeWatchedIff(w: World, es: seq<Event>, r: Ref)
    requires Safe(w) && r.side.Callee? && r.uid < w.nextUid
    ensures r in Run(w, es).registered <==> r in w.registered && !DrainedIn(w, es, r)
    decreases |es|
  {
    if es != [] {
      StepCallee(w, es[0], r);
      StepSafe(w, es[0]);
      CalleeWatchedIff(Step(w, es[0]), es[1..], r);
    }
  }

  /** From its creation on, whatever is accepted, received or timed out afterwards, a callee is on its loop
      exactly until a drain finds it. */
  lemma NewCalleeWatchedIff(udp: bool, loops: nat, before: seq<Event>, k: nat, t: int, es: seq<Event>)
    requires k !in Run(Start(udp, loops), before).sessions
    ensures var w := Step(Run(Start(udp, loops), before), Accept(k, t));
            && k in w.sessions
            && var r := CalleeRef(w, k);
               r in Run(w, es).registered <==> !DrainedIn(w, es, r)
  {
    var w0 := Run(Start(udp, loops), before);
    ReachableIsSafe(udp, loops, before);
    StepSafe(w0, Accept(k, t));
    var w := Step(w0, Accept(k, t));
    CalleeWatchedIff(w, es, CalleeRef(w, k));
  }

  /** Accepting a known caller again does not put its callee back on the loop: it is there afterwards if and only
      if it was before, and once off it stays off in every run. */
  lemma AcceptKeepsCallee(w: World, k: nat, t: int, es: seq<Event>)
    requires Safe(w) && k in w.sessions
    ensures var w', r := Step(w, Accept(k, t)), CalleeRef(w, k);
            && CalleeRef(w', k) == r
            && (r in w'.registered <==> r in w.registered)
            && (r !in w.registered ==> r !in Run(w', es).registered)
  {
    var w', r := Step(w, Accept(k, t)), CalleeRef(w, k);
    StepCallee(w, Accept(k, t), r);
    StepSafe(w, Accept(k, t));
    CalleeWatchedIff(w', es, r);
  }

  /** A UDP caller that comes back after its callee was drained: after the first reset and after the second one
      the session looks fresh, and its callee is on no loop. */
  lemma ResetCalleeIsOff(loops: nat, k: nat, t: int, t1: int, t2: int)
    ensures var es := [Accept(k, t), TimerTick(t + DEFAULT_TIMEOUT_SEC, [k]), LoopDrain(0), Accept(k, t1)];
            var w := Run(Start(true, loops), es);
            && k in w.sessions && w.sessions[k].callee == Channel(Init, t1) && CalleeRef(w, k) !in w.registered
            && var w' := Step(w, Accept(k, t2));
               k in w'.sessions && w'.sessions[k].callee == Channel(Init, t2) && CalleeRef(w', k) !in w'.registered
  {
    var w2, tick := FirstTimeout(true, loops, k, t);
    var w3 := Drain(w2, 0);
    DrainExactly(w2, 0, k);
    DrainRegistered(w2, 0, CalleeRef(w2, k));
    var w4 := Step(w3, Accept(k, t1));
    assert w4.registered == w3.registered;
    RunFour(Start(true, loops), Accept(k, t), tick, LoopDrain(0), Accept(k, t1));
  }

  /** The first caller, silent for 30 seconds: the tick posts it. */
  lemma FirstTimeout(udp: bool, loops: nat, k: nat, t: int) returns (w2: World, tick: Event)
    ensures tick == TimerTick(t + DEFAULT_TIMEOUT_SEC, [k])
    ensures w2 == Step(Step(Start(udp, loops), Accept(k, t)), tick)
    ensures Safe(w2) && w2.udp == udp && k in w2.sessions && w2.sessions[k].loop == 0 && Posted(w2, k)
  {
    var w0, t1 := Start(udp, loops), t + DEFAULT_TIMEOUT_SEC;
    var w1 := Step(w0, Accept(k, t));
    tick := TimerTick(t1, [k]);
    w2 := Step(w1, tick);
    FirstAccepted(udp, loops, k, t);
    assert Enumerates([k], w1.sessions.Keys);
    StepSafe(w1, tick);
    TickExactly(w1, t1, [k], k);
  }

  lemma FirstAccepted(udp: bool, loops: nat, k: nat, t: int)
    ensures var w := Step(Start(udp, loops), Accept(k, t));
            && Safe(w) && w.udp == udp && w.sessions.Keys == {k}
            && w.sessions[k].loop == 0 && MustPost(w.sessions[k], t + DEFAULT_TIMEOUT_SEC)
            && w.sessions[k].callee.state.Rw? && (udp ==> w.sessions[k].caller.state.Init?)
  {
    StepSafe(Start(udp, loops), Accept(k, t));
  }

  lemma RunFour(w: World, a: Event, b: Event, c: Event, d: Event)
    ensures Run(w, [a, b, c, d]) == Step(Step(Step(Step(w, a), b), c), d)
  {
    assert [a, b, c, d][1..] == [b, c, d];
    RunThree(Step(w, a), b, c, d);
  }

  // ---------------------------------------------------------------- when a caller stays open

  /** Whoever is accepted has a session from then on with a fresh caller; a TCP caller is watched. The pending
      lists are left alone, even if the caller's old reference is on one. */
  lemma AcceptOpens(w: World, k: nat, t: int)
    ensures var w' := Step(w, Accept(k, t));
            && k in w'.sessions && w'.sessions[k].caller.lastRecv == t && w'.pending == w.pending && w'.udp == w.udp
            && (!w.udp ==> CallerRef(w', k) in w'.registered && w'.sessions[k].caller.state.Rw?)
            && (k in w.sessions ==> CallerRef(w', k) == CallerRef(w, k) && w'.sessions[k].loop == w.sessions[k].loop)
  {
  }

  /** The caller `k` neither comes back nor is closed by its peer. */
  predicate LeavesAlone(e: Event, k: nat) {
    !(e.Accept? && e.key == k) && !(e.TcpClose? && e.r.key == k)
  }

  predicate Quiet(es: seq<Event>, k: nat, t: int) {
    forall i | 0 <= i < |es| :: Within(es[i], t) && LeavesAlone(es[i], k)
  }

  lemma QuietTail(es: seq<Event>, k: nat, t: int)
    requires Quiet(es, k, t) && es != []
    ensures Quiet(es[1..], k, t)
    ensures forall x :: x in es <==> x == es[0] || x in es[1..]
  {
    assert forall i | 0 <= i < |es[1..]| :: es[1..][i] == es[i + 1];
  }

  /** Nothing happens to the caller but that it is closed and taken off its loop if a drain has `found` it. */
  ghost predicate CallerKept(w: World, w': World, r: Ref, found: bool)
    requires Live(w, r)
  {
    var s := w.sessions[r.key];
    && Live(w', r) && w'.sessions[r.key].loop == s.loop
    && (r in w'.registered <==> r in w.registered && !found)
    && (r in PendingOf(w', s.loop) <==> r in PendingOf(w, s.loop) && !found)
    && w'.sessions[r.key].caller.state == if found then Closed else s.caller.state
  }

  /** A caller that is not silent: only a drain that finds it changes its state or takes it off its loop. */
  lemma StepCaller(w: World, e: Event, r: Ref, t: int)
    requires Safe(w) && r.side.Caller? && Fresh(w, r.key, r.uid, t)
    requires Within(e, t) && LeavesAlone(e, r.key) && NotBefore(w, e, r.key)
    ensures Fresh(Step(w, e), r.key, r.uid, t) && CallerKept(w, Step(w, e), r, Drains(w, e, r))
  {
    StepKeepsFresh(w, e, r.key, r.uid, t);
    match e
    case TimerTick(u, order) => if Enumerates(order, w.sessions.Keys) { TickCaller(w, u, order, r); }
    case LoopDrain(loop) =>
      DrainExactly(w, loop, r.key);
      DrainRegistered(w, loop, r);
    case _ =>
      assert PendingOf(Step(w, e), w.sessions[r.key].loop) == PendingOf(w, w.sessions[r.key].loop);
  }

  lemma TickCaller(w: World, u: int, order: seq<nat>, r: Ref)
    requires Safe(w) && r.side.Caller? && Live(w, r) && Enumerates(order, w.sessions.Keys)
    requires !Silent(w.sessions[r.key], u)
    ensures CallerKept(w, Tick(w, u, order), r, false)
  {
    TickExactly(w, u, order, r.key);
    if w.udp {
      TickSafe(w, u, order);
      UdpCallerIsNowhere(w, r);
      UdpCallerIsNowhere(Tick(w, u, order), r);
    } else {
      TickRegistered(w, u, order);
    }
  }

  lemma UdpCallerIsNowhere(w: World, r: Ref)
    requires Safe(w) && w.udp && r.side.Caller?
    ensures r !in w.registered && NotPending(w, r)
  {
    assert !Held(w, r);
  }

  /** The caller's reference is on the list of its loop, and a drain of the loop is to come. */
  predicate Hit(w: World, es: seq<Event>, r: Ref)
    requires Live(w, r)
  {
    var loop := w.sessions[r.key].loop;
    r in PendingOf(w, loop) && LoopDrain(loop) in es
  }

  /** While ticks are not behind, such a caller is drained exactly if it is on the list at the start. */
  lemma {:induction false} FreshCallerWatchedIff(w: World, es: seq<Event>, r: Ref, t: int)
    requires Safe(w) && r.side.Caller? && Fresh(w, r.key, r.uid, t)
    requires Quiet(es, r.key, t) && Timely(w, es, r.key)
    ensures var w' := Run(w, es);
            && Fresh(w', r.key, r.uid, t)
            && (r in w'.registered <==> r in w.registered && !Hit(w, es, r))
            && w'.sessions[r.key].caller.state == if Hit(w, es, r) then Closed else w.sessions[r.key].caller.state
    decreases |es|
  {
    if es != [] {
      var w1, e := Step(w, es[0]), es[0];
      StepCaller(w, e, r, t);
      StepSafe(w, e);
      QuietTail(es, r.key, t);
      assert Drains(w, e, r) ==> e == LoopDrain(w.sessions[r.key].loop);
      FreshCallerWatchedIff(w1, es[1..], r, t);
    }
  }

  /** A caller that was posted or closed is not open again, and a session that is gone is not there again, before
      the caller comes back. */
  lemma StepNotOpen(w: World, e: Event, k: nat)
    requires Safe(w) && (k in w.sessions ==> !Open(w.sessions[k].caller)) && LeavesAlone(e, k)
    ensures var w' := Step(w, e);
            k in w'.sessions ==> !Open(w'.sessions[k].caller)
  {
    match e
    case TimerTick(u, order) =>
      if Enumerates(order, w.sessions.Keys) {
        TickKeys(w, u, order);
        if k in w.sessions {
          TickExactly(w, u, order, k);
        }
      }
    case LoopDrain(loop) =>
      DrainKeys(w, loop);
      if k in w.sessions {
        DrainExactly(w, loop, k);
      }
    case _ =>
  }

  lemma {:induction false} RunNotOpen(w: World, es: seq<Event>, k: nat, t: int)
    requires Safe(w) && (k in w.sessions ==> !Open(w.sessions[k].caller)) && Quiet(es, k, t)
    ensures var w' := Run(w, es);
            k in w'.sessions ==> !Open(w'.sessions[k].caller)
    decreases |es|
  {
    if es != [] {
      StepNotOpen(w, es[0], k);
      StepSafe(w, es[0]);
      QuietTail(es, k, t);
      RunNotOpen(Step(w, es[0]), es[1..], k, t);
    }
  }

  /** The caller of session `k` is there and open, and is still the one with this `uid`. */
  ghost predicate StillOpen(w: World, r: Ref) {
    Live(w, r) && Open(w.sessions[r.key].caller)
  }

  /** Over every run of less than 30 seconds and for both managers: an open caller stays open if and only if no
      tick is behind its receipts and it was not on a list that is drained. */
  lemma {:induction false} StaysOpenIff(w: World, es: seq<Event>, r: Ref, t: int)
    requires Safe(w) && r.side.Caller? && Fresh(w, r.key, r.uid, t) && Open(w.sessions[r.key].caller)
    requires Quiet(es, r.key, t)
    ensures StillOpen(Run(w, es), r) <==> Timely(w, es, r.key) && !Hit(w, es, r)
    decreases |es|
  {
    if es != [] {
      var w1, e := Step(w, es[0]), es[0];
      StepSafe(w, e);
      QuietTail(es, r.key, t);
      if !NotBefore(w, e, r.key) {
        TickExactly(w, e.t, e.order, r.key);
        RunNotOpen(w1, es[1..], r.key, t);
      } else {
        StepCaller(w, e, r, t);
        assert Drains(w, e, r) ==> e == LoopDrain(w.sessions[r.key].loop);
        if Drains(w, e, r) {
          RunNotOpen(w1, es[1..], r.key, t);
        } else {
          StaysOpenIff(w1, es[1..], r, t);
        }
      }
    }
  }

  /** A TCP caller accepted at `t` in any reachable state is readable for the next 30 seconds, whatever happens to
      others, if and only if no tick is behind its receipts, and its old reference was not on the pending list of
      the loop or the loop has not been drained since: a drain does not notice that the socket is a new one. */
  lemma AcceptedCallerWatchedIff(loops: nat, before: seq<Event>, k: nat, t: int, es: seq<Event>)
    requires Quiet(es, k, t)
    ensures var w := Run(Start(false, loops), before);
            var w1 := Step(w, Accept(k, t));
            var w2 := Run(w1, es);
            && k in w1.sessions
            && var r, loop := CallerRef(w1, k), w1.sessions[k].loop;
               var hit := k in w.sessions && CallerRef(w, k) in PendingOf(w, loop) && LoopDrain(loop) in es;
               && (StillOpen(w2, r) <==> Timely(w1, es, k) && !hit)
               && (Timely(w1, es, k) ==>
                     && Live(w2, r) && (r in w2.registered <==> !hit)
                     && w2.sessions[k].caller.state == if hit then Closed else Rw)
  {
    var w := Run(Start(false, loops), before);
    ReachableIsSafe(false, loops, before);
    RunUdp(Start(false, loops), before);
    var w1 := Step(w, Accept(k, t));
    StepSafe(w, Accept(k, t));
    AcceptOpens(w, k, t);
    var r, loop := CallerRef(w1, k), w1.sessions[k].loop;
    assert PendingOf(w1, loop) == PendingOf(w, loop);
    assert k !in w.sessions ==> !Held(w, r);
    StaysOpenIff(w1, es, r, t);
    if Timely(w1, es, k) {
      FreshCallerWatchedIff(w1, es, r, t);
    }
  }

  // ---------------------------------------------------------------- a session in use

  /** The caller is heard: data on the watched channel of a TCP caller, a datagram of a UDP caller. */
  predicate Hears(udp: bool, e: Event, r: Ref) {
    if udp then e.FindChannel? && e.key == r.key else e.Receive? && e.r == r
  }

  /** When the caller was heard last, in the end. */
  function LastHeard(udp: bool, es: seq<Event>, r: Ref, last: int): (t: int)
    decreases |es|
  {
    if es == [] then last else LastHeard(udp, es[1..], r, if Hears(udp, es[0], r) then es[0].t else last)
  }

  /** At every tick the caller has been heard less than 30 seconds before and not after it; it does not come back and
      is not closed by its peer. */
  predicate InUse(udp: bool, es: seq<Event>, r: Ref, last: int)
    decreases |es|
  {
    es == [] ||
    (&& LeavesAlone(es[0], r.key) && (es[0].TimerTick? ==> last <= es[0].t < last + 30)
     && InUse(udp, es[1..], r, if Hears(udp, es[0], r) then es[0].t else last))
  }

  /** An open caller heard at `last`, on its loop if it has one and on no list. */
  ghost predicate Used(w: World, r: Ref, last: int) {
    && r.side.Caller? && StillOpen(w, r) && w.sessions[r.key].caller.lastRecv == last
    && r !in PendingOf(w, w.sessions[r.key].loop) && (w.udp || r in w.registered)
  }

  lemma TickUsed(w: World, u: int, order: seq<nat>, r: Ref, last: int)
    requires Safe(w) && Used(w, r, last) && Enumerates(order, w.sessions.Keys) && last <= u < last + 30
    ensures Used(Tick(w, u, order), r, last)
  {
    TickCaller(w, u, order, r);
    TickExactly(w, u, order, r.key);
  }

  lemma DrainUsed(w: World, loop: nat, r: Ref, last: int)
    requires Safe(w) && Used(w, r, last)
    ensures Used(Drain(w, loop), r, last)
  {
    ListedAtHome(w, r);
    DrainExactly(w, loop, r.key);
    DrainRegistered(w, loop, r);
  }

  lemma ListedAtHome(w: World, r: Ref)
    requires Safe(w) && Live(w, r)
    ensures forall loop | r in PendingOf(w, loop) :: loop == w.sessions[r.key].loop
  {
  }

  lemma StepUsed(w: World, e: Event, r: Ref, last: int)
    requires Safe(w) && Used(w, r, last) && LeavesAlone(e, r.key) && (e.TimerTick? ==> last <= e.t < last + 30)
    ensures Step(w, e).udp == w.udp && Used(Step(w, e), r, if Hears(w.udp, e, r) then e.t else last)
  {
    StepUdp(w, e);
    match e
    case TimerTick(u, order) => if Enumerates(order, w.sessions.Keys) { TickUsed(w, u, order, r, last); }
    case LoopDrain(loop) => DrainUsed(w, loop, r, last);
    case Accept(k, t) => OtherAccepted(w, k, t, r, last);
    case _ =>
      assert w.udp && r.key in w.callers ==> w.callers[r.key] == CallerRef(w, r.key);
      assert PendingOf(Step(w, e), w.sessions[r.key].loop) == PendingOf(w, w.sessions[r.key].loop);
  }

  lemma OtherAccepted(w: World, k: nat, t: int, r: Ref, last: int)
    requires Used(w, r, last) && k != r.key
    ensures Used(Step(w, Accept(k, t)), r, last)
  {
    assert PendingOf(Step(w, Accept(k, t)), w.sessions[r.key].loop) == PendingOf(w, w.sessions[r.key].loop);
  }

  lemma {:induction false} RunUsed(w: World, es: seq<Event>, r: Ref, last: int)
    requires Safe(w) && Used(w, r, last) && InUse(w.udp, es, r, last)
    ensures Used(Run(w, es), r, LastHeard(w.udp, es, r, last))
    decreases |es|
  {
    if es != [] {
      StepUsed(w, es[0], r, last);
      StepSafe(w, es[0]);
      RunUsed(Step(w, es[0]), es[1..], r, if Hears(w.udp, es[0], r) then es[0].t else last);
    }
  }

  /** For as long as it is used, a session stays: a caller accepted in any reachable state, with no old reference on a
      list, is there, open and watched after every run in which it was heard less than 30 seconds before each tick,
      however long the run, and the session has the time it was heard last. */
  lemma SessionInUseStays(udp: bool, loops: nat, before: seq<Event>, k: nat, t: int, es: seq<Event>)
    requires var w := Run(Start(udp, loops), before);
             && (k in w.sessions ==> NotPending(w, CallerRef(w, k)))
             && InUse(udp, es, Ref(k, Step(w, Accept(k, t)).sessions[k].uid, Caller), t)
    ensures var w1 := Step(Run(Start(udp, loops), before), Accept(k, t));
            && k in w1.sessions
            && var r := CallerRef(w1, k);
               Used(Run(w1, es), r, LastHeard(udp, es, r, t))
  {
    var w := Run(Start(udp, loops), before);
    ReachableIsSafe(udp, loops, before);
    RunUdp(Start(udp, loops), before);
    var w1 := Step(w, Accept(k, t));
    StepSafe(w, Accept(k, t));
    AcceptOpens(w, k, t);
    var r, loop := CallerRef(w1, k), w1.sessions[k].loop;
    assert PendingOf(w1, loop) == PendingOf(w, loop);
    assert k !in w.sessions ==> !Held(w, r);
    RunUsed(w1, es, r, t);
  }

  // ---------------------------------------------------------------- loops in turn

  /** The sessions are dealt out to the loops in turn. */
  ghost predicate Dealt(w: World) {
    w.loops > 0 ==>
      && w.nextLoop == w.nextUid % w.loops
      && forall k | k in w.sessions :: w.sessions[k].loop == w.sessions[k].uid % w.loops
  }

  lemma NextLoop(n: nat, m: nat)
    requires m > 0
    ensures (n + 1) % m == if n % m + 1 >= m then 0 else n % m + 1
  {
    var q, r := n / m, n % m;
    assert n + 1 == q * m + (r + 1);
    if r + 1 >= m {
      assert q * m + m == (q + 1) * m;
      ModIs(n + 1, m, q + 1, 0);
    } else {
      ModIs(n + 1, m, q, r + 1);
    }
  }

  lemma ModIs(x: nat, m: nat, q: nat, r: nat)
    requires r < m && x == q * m + r
    ensures x % m == r
  {
    var q', r' := x / m, x % m;
    assert x == q' * m + r' && 0 <= r' < m;
    if q < q' {
      OneTurnMore(q, q', m);
    } else if q' < q {
      OneTurnMore(q', q, m);
    }
  }

  lemma OneTurnMore(q: nat, q': nat, m: nat)
    requires q < q'
    ensures q * m + m <= q' * m
  {
    assert (q + 1) * m <= q' * m;
    assert (q + 1) * m == q * m + m;
  }

  lemma TickDealt(w: World, t: int, order: seq<nat>)
    requires Safe(w) && Dealt(w) && Enumerates(order, w.sessions.Keys)
    ensures Dealt(Tick(w, t, order)) && Tick(w, t, order).loops == w.loops
  {
    var w' := Tick(w, t, order);
    TickRegistered(w, t, order);
    TickKeys(w, t, order);
    forall k | k in w'.sessions
      ensures w'.sessions[k].loop == w.sessions[k].loop && w'.sessions[k].uid == w.sessions[k].uid
    {
      TickExactly(w, t, order, k);
    }
  }

  lemma DrainDealt(w: World, loop: nat)
    requires Safe(w) && Dealt(w)
    ensures Dealt(Drain(w, loop)) && Drain(w, loop).loops == w.loops
  {
    var w' := Drain(w, loop);
    DrainKeys(w, loop);
    DrainRegistered(w, loop, Ref(0, 0, Caller));
    forall k | k in w'.sessions
      ensures w'.sessions[k].loop == w.sessions[k].loop && w'.sessions[k].uid == w.sessions[k].uid
    {
      DrainExactly(w, loop, k);
    }
  }

  lemma AcceptDealt(w: World, k: nat, t: int)
    requires Dealt(w)
    ensures Dealt(Step(w, Accept(k, t))) && Step(w, Accept(k, t)).loops == w.loops
  {
    if w.loops > 0 {
      NextLoop(w.nextUid, w.loops);
    }
    var w' := Step(w, Accept(k, t));
    assert k !in w.sessions ==> w'.sessions[k].uid == w.nextUid && w'.sessions[k].loop == w.nextLoop;
    assert forall j | j in w.sessions ::
        w'.sessions[j].uid == w.sessions[j].uid && w'.sessions[j].loop == w.sessions[j].loop;
  }

  lemma StepDealt(w: World, e: Event)
    requires Safe(w) && Dealt(w)
    ensures Dealt(Step(w, e)) && Step(w, e).loops == w.loops
  {
    match e
    case Accept(k, t) => AcceptDealt(w, k, t);
    case TimerTick(t, order) => if Enumerates(order, w.sessions.Keys) { TickDealt(w, t, order); }
    case LoopDrain(loop) => DrainDealt(w, loop);
    case _ =>
  }

  /** In every reachable state, session number `n` sits on loop `n` modulo the number of loops. */
  lemma {:induction false} LoopsInTurn(w: World, es: seq<Event>)
    requires Safe(w) && Dealt(w)
    ensures Dealt(Run(w, es)) && Run(w, es).loops == w.loops
    decreases |es|
  {
    if es != [] {
      StepDealt(w, es[0]);
      StepSafe(w, es[0]);
      LoopsInTurn(Step(w, es[0]), es[1..]);
    }
  }

  lemma ReachableIsDealt(udp: bool, loops: nat, es: seq<Event>)
    ensures Dealt(Run(Start(udp, loops), es)) && Run(Start(udp, loops), es).loops == loops
  {
    assert loops > 0 ==> 0 % loops == 0;
    LoopsInTurn(Start(udp, loops), es);
  }

  /** A caller that comes back between the tick that posts it and the drain loses its new connection. */
  lemma ReturningCallerIsClosed(loops: nat, k: nat, t: int, t1: int)
    ensures var es := [Accept(k, t), TimerTick(t + DEFAULT_TIMEOUT_SEC, [k]), Accept(k, t1), LoopDrain(0)];
            var w := Run(Start(false, loops), es);
            k in w.sessions && w.sessions[k].caller == Channel(Closed, t1) && CallerRef(w, k) !in w.registered
  {
    var w2, tick := FirstTimeout(false, loops, k, t);
    var w3 := Step(w2, Accept(k, t1));
    AcceptOpens(w2, k, t1);
    StepSafe(w2, Accept(k, t1));
    assert PendingOf(w3, 0) == PendingOf(w2, 0);
    DrainExactly(w3, 0, k);
    DrainRegistered(w3, 0, CallerRef(w3, k));
    RunFour(Start(false, loops), Accept(k, t), tick, Accept(k, t1), LoopDrain(0));
  }
}
