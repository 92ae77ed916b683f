/** The session manager as the relay runs it: fields changed in place, loops over the session map, the list of
    dead sessions and the pending list, each proved to do what the step machine of module Sessions says. */
module SessionManagers {
  import S = Sessions
  import opened Wrappers

  class SessionManager {
    const udp: bool
    const loops: nat
    var sessions: map<nat, S.Session>
    var callers: map<nat, S.Ref>
    var registered: set<S.Ref>
    var pending: map<nat, seq<S.Ref>>
    var nextUid: nat
    var nextLoop: nat
    var invalidKeys: seq<nat>

    ghost function Abs(): (w: S.World)
      reads this
    {
      S.World(udp, loops, sessions, callers, registered, pending, nextUid, nextLoop)
    }

    /** Between two events no loop refers to a deleted session, the tables agree, every session that is being
        wound down is so on both sides, and no dead session waits for its removal. */
    ghost predicate Valid()
      reads this
    {
      S.Safe(Abs()) && S.Orderly(Abs()) && invalidKeys == []
    }

    constructor (udp: bool, loops: nat)
      ensures Abs() == S.Start(udp, loops) && Valid()
    {
      this.udp, this.loops := udp, loops;
      sessions, callers, registered, pending := map[], map[], {}, map[];
      nextUid, nextLoop, invalidKeys := 0, 0, [];
    }

    /** Doing what the step machine does keeps all that. */
    twostate lemma StepValid(e: S.Event)
      requires old(Valid()) && Abs() == S.Step(old(Abs()), e) && invalidKeys == []
      ensures Valid()
    {
      S.StepSafe(old(Abs()), e);
      S.StepOrderly(old(Abs()), e);
    }

    /** All sessions, with only the channel `r` changed, to `c`. */
    ghost function With(was: map<nat, S.Session>, r: S.Ref, c: S.Channel): (now: map<nat, S.Session>)
      requires r.key in was
    {
      var s := was[r.key];
      was[r.key := if r.side.Caller? then S.Session(s.uid, s.name, s.loop, c, s.callee)
                   else S.Session(s.uid, s.name, s.loop, s.caller, c)]
    }

    ghost function LastRecv(was: map<nat, S.Session>, r: S.Ref): (t: int)
      requires r.key in was
    {
      if r.side.Caller? then was[r.key].caller.lastRecv else was[r.key].callee.lastRecv
    }

    /** A new session on the loop whose turn it is, with its callee on that loop, and its caller if it has one there. */
    ghost predicate Created(w: S.World, k: nat, t: int)
      reads this
    {
      var er, ee := S.Ref(k, w.nextUid, S.Caller), S.Ref(k, w.nextUid, S.Callee);
      var caller := S.Channel(if udp then S.Init else S.Rw, t);
      && sessions == w.sessions[k := S.Session(w.nextUid, k, w.nextLoop, caller, S.Channel(S.Rw, t))]
      && callers == (if udp then w.callers[k := er] else w.callers)
      && registered == w.registered + (if udp then {ee} else {er, ee})
      && nextUid == w.nextUid + 1 && nextLoop == (if w.nextLoop + 1 < loops then w.nextLoop + 1 else 0)
    }

    method SetChannel(r: S.Ref, c: S.Channel)
      requires S.Live(Abs(), r)
      modifies this`sessions
      ensures Abs() == S.Put(old(Abs()), r, c)
    {
      var s := sessions[r.key];
      if r.side.Caller? {
        sessions := sessions[r.key := s.(caller := c)];
      } else {
        sessions := sessions[r.key := s.(callee := c)];
      }
    }

    method GetChannel(r: S.Ref) returns (c: S.Channel)
      requires S.Live(Abs(), r)
      ensures c == S.Get(Abs(), r)
    {
      c := if r.side.Caller? then sessions[r.key].caller else sessions[r.key].callee;
    }

    method Close(r: S.Ref)
      requires S.Live(Abs(), r)
      modifies this`sessions, this`registered
      ensures Abs() == S.Close(old(Abs()), r)
      ensures registered == old(registered) - {r}
      ensures sessions == With(old(sessions), r, S.Channel(S.Closed, LastRecv(old(sessions), r)))
    {
      registered := registered - {r};
      var c := GetChannel(r);
      SetChannel(r, c.(state := S.Closed));
    }

    method AddToPoll(r: S.Ref)
      requires S.Live(Abs(), r)
      modifies this`sessions, this`registered
      ensures Abs() == S.AddToPoll(old(Abs()), r)
      ensures registered == old(registered) + {r}
      ensures sessions == With(old(sessions), r, S.Channel(S.Rw, LastRecv(old(sessions), r)))
    {
      registered := registered + {r};
      var c := GetChannel(r);
      SetChannel(r, c.(state := S.Rw));
    }

    method PostTimeout(r: S.Ref)
      requires S.Live(Abs(), r)
      modifies this`sessions, this`registered, this`pending
      ensures Abs() == S.PostTimeout(old(Abs()), r)
      ensures var state := if udp && r.side.Caller? then S.Closed else S.Timeout;
              sessions == With(old(sessions), r, S.Channel(state, LastRecv(old(sessions), r)))
      ensures if udp && r.side.Caller? then pending == old(pending) && registered == old(registered) - {r}
              else
                var loop := old(sessions)[r.key].loop;
                && registered == old(registered)
                && pending == old(pending)[loop := (if loop in old(pending) then old(pending)[loop] else []) + [r]]
    {
      if udp && r.side.Caller? {
        Close(r);
      } else {
        var c := GetChannel(r);
        SetChannel(r, c.(state := S.Timeout));
        var loop := sessions[r.key].loop;
        pending := pending[loop := (if loop in pending then pending[loop] else []) + [r]];
      }
    }

    method CheckChannelsTimeout(k: nat, t: int) returns (dead: bool)
      requires k in sessions
      modifies this`sessions, this`registered, this`pending
      ensures Abs() == S.CheckSession(old(Abs()), k, t)
      ensures var s := old(sessions)[k];
              dead <==> (t < s.caller.lastRecv || t - s.caller.lastRecv >= 30)
                        && s.caller.state.Closed? && s.callee.state.Closed?
    {
      var s := sessions[k];
      if s.caller.lastRecv <= t && t - s.caller.lastRecv < S.DEFAULT_TIMEOUT_SEC {
        return false;
      }
      if s.callee.state.Closed? && s.caller.state.Closed? {
        return true;
      }
      if !s.caller.state.Timeout? && !s.caller.state.Closed? {
        PostTimeout(S.Ref(k, s.uid, S.Caller));
        PostTimeout(S.Ref(k, s.uid, S.Callee));
      }
      return false;
    }

    /** The first loop of `updateSessions`, which collects the dead sessions. */
    method CheckEach(t: int, order: seq<nat>) returns (dead: seq<nat>)
      modifies this`sessions, this`registered, this`pending
      ensures S.CheckAll(old(Abs()), order, t) == S.Checked(Abs(), dead)
    {
      dead := [];
      ghost var w := Abs();
      for i := 0 to |order|
        invariant S.CheckAllFrom(w, order, t, Abs(), dead, i)
      {
        S.CheckAllStep(w, order, t, Abs(), dead, i);
        if order[i] in sessions {
          var isDead := CheckChannelsTimeout(order[i], t);
          if isDead {
            dead := dead + [order[i]];
          }
        }
      }
      assert order[|order|..] == [];
    }

    /** `order` is the order in which the session map is iterated. */
    method UpdateSessions(t: int, order: seq<nat>)
      requires Valid() && S.Enumerates(order, sessions.Keys)
      modifies this
      ensures Valid() && Abs() == S.Step(old(Abs()), S.TimerTick(t, order))
    {
      var dead := CheckEach(t, order);
      if dead != [] {
        invalidKeys := dead;
        RemoveSessions();
      }
      StepValid(S.TimerTick(t, order));
    }

    method RemoveSessions()
      modifies this
      ensures Abs() == S.DeleteAll(old(Abs()), old(invalidKeys)) && invalidKeys == []
    {
      ghost var w := Abs();
      for i := 0 to |invalidKeys|
        invariant invalidKeys == old(invalidKeys)
        invariant S.DeleteAll(Abs(), invalidKeys[i..]) == S.DeleteAll(w, invalidKeys)
      {
        assert invalidKeys[i..][1..] == invalidKeys[i + 1..];
        callers := callers - {invalidKeys[i]};
        sessions := sessions - {invalidKeys[i]};
      }
      invalidKeys := [];
    }

    /** Every channel on the list is live; the source relies on that. */
    method DoPendingCloseChannels(loop: nat)
      requires Valid()
      modifies this`sessions, this`registered, this`pending
      ensures Valid() && Abs() == S.Step(old(Abs()), S.LoopDrain(loop))
    {
      var chls := if loop in pending then pending[loop] else [];
      assert forall j | 0 <= j < |chls| :: chls[j] in S.PendingOf(Abs(), loop) && S.Held(Abs(), chls[j]);
      pending := pending[loop := []];
      ghost var w := Abs();
      for i := 0 to |chls|
        invariant S.CloseAll(Abs(), chls[i..]) == S.CloseAll(w, chls)
        invariant forall j | 0 <= j < |chls| :: S.Live(Abs(), chls[j])
      {
        assert chls[i..][1..] == chls[i + 1..];
        ghost var before := Abs();
        Close(chls[i]);
        forall j | 0 <= j < |chls|
          ensures S.Live(Abs(), chls[j])
        {
          S.CloseKeepsLive(before, chls[i], chls[j]);
        }
      }
      assert chls[|chls|..] == [];
      StepValid(S.LoopDrain(loop));
    }

    method FindChannel(key: nat, t: int) returns (found: Option<S.Ref>)
      requires Valid() && udp
      modifies this`sessions
      ensures Valid() && Abs() == S.Step(old(Abs()), S.FindChannel(key, t))
      ensures found == if key in callers then Some(callers[key]) else None
      ensures found.Some? ==>
                && found.value.key == key && found.value.side.Caller? && key in old(sessions)
                && sessions == With(old(sessions), found.value, old(sessions)[key].caller.(lastRecv := t))
      ensures found.None? ==> sessions == old(sessions)
      ensures found.Some? ==> S.Live(Abs(), found.value)
    {
      if key !in callers {
        return None;
      }
      var r := callers[key];
      var c := GetChannel(r);
      SetChannel(r, c.(lastRecv := t));
      StepValid(S.FindChannel(key, t));
      return Some(r);
    }

    method ResetOrCreateSession(ip: nat, port: nat, t: int)
      requires Valid() && S.IsAddress(ip, port)
      modifies this`sessions, this`callers, this`registered, this`nextUid, this`nextLoop
      ensures Valid() && Abs() == S.Step(old(Abs()), S.Accept(S.CreateKey(ip, port), t))
      ensures var k := ip * 65536 + port;
              if k in old(sessions) then WasReset(old(Abs()), k, t) else Created(old(Abs()), k, t)
    {
      var k := S.CreateKey(ip, port);
      if k in sessions {
        ResetSession(k, t);
      } else {
        CreateSession(k, t);
      }
      StepValid(S.Accept(k, t));
    }

    /** A known caller: a UDP session starts afresh but for its registrations; the caller of a TCP session is on its
        loop again, and its callee stays as it is. */
    ghost predicate WasReset(w: S.World, k: nat, t: int)
      reads this
      requires k in w.sessions
    {
      var s := w.sessions[k];
      && nextUid == w.nextUid && nextLoop == w.nextLoop && callers == w.callers
      && registered == w.registered + (if udp then {} else {S.Ref(k, s.uid, S.Caller)})
      && var caller := S.Channel(if udp then S.Init else S.Rw, t);
         var callee := if udp then S.Channel(S.Init, t) else s.callee;
         sessions == w.sessions[k := S.Session(s.uid, s.name, s.loop, caller, callee)]
    }

    method ResetSession(k: nat, t: int)
      requires k in sessions
      modifies this`sessions, this`registered
      ensures Abs() == S.ResetSession(old(Abs()), k, t) && WasReset(old(Abs()), k, t)
    {
      var s := sessions[k];
      if udp {
        sessions := sessions[k := s.(caller := S.Channel(S.Init, t), callee := S.Channel(S.Init, t))];
      } else {
        var r := S.Ref(k, s.uid, S.Caller);
        SetChannel(r, S.Channel(S.Init, t));
        registered := registered - {r};
        AddToPoll(r);
      }
    }

    method CreateSession(k: nat, t: int)
      requires k !in sessions
      modifies this`sessions, this`callers, this`registered, this`nextUid, this`nextLoop
      ensures Abs() == S.CreateSession(old(Abs()), k, t) && Created(old(Abs()), k, t)
    {
      var uid := nextUid;
      sessions := sessions[k := S.Session(uid, k, nextLoop, S.Channel(S.Init, t), S.Channel(S.Init, t))];
      if udp {
        callers := callers[k := S.Ref(k, uid, S.Caller)];
      }
      nextUid := uid + 1;
      nextLoop := if nextLoop + 1 >= loops then 0 else nextLoop + 1;
      if !udp {
        AddToPoll(S.Ref(k, uid, S.Caller));
      }
      AddToPoll(S.Ref(k, uid, S.Callee));
    }

    /** `handleClose` of the TCP caller. */
    method HandleClose(r: S.Ref)
      requires Valid() && S.Live(Abs(), r) && !udp && r.side.Caller?
      modifies this`sessions, this`registered
      ensures Valid() && Abs() == S.Step(old(Abs()), S.TcpClose(r)) && registered == old(registered) - {r}
      ensures var c := old(sessions)[r.key].caller;
              sessions == With(old(sessions), r, c.(lastRecv := c.lastRecv - 30))
    {
      var c := GetChannel(r);
      SetChannel(r, c.(lastRecv := c.lastRecv - S.DEFAULT_TIMEOUT_SEC));
      registered := registered - {r};
      StepValid(S.TcpClose(r));
    }

    /** A loop reports data for a channel that it watches; such a channel is live. */
    method HandleRecv(r: S.Ref, t: int)
      requires Valid() && r in registered
      modifies this`sessions
      ensures Valid() && Abs() == S.Step(old(Abs()), S.Receive(r, t))
      ensures S.Live(old(Abs()), r) && sessions == With(old(sessions), r, S.Get(old(Abs()), r).(lastRecv := t))
    {
      assert S.Held(Abs(), r);
      var c := GetChannel(r);
      SetChannel(r, c.(lastRecv := t));
      StepValid(S.Receive(r, t));
    }
  }
}
