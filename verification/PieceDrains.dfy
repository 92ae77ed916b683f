/**
  The drain of a loop in pieces, as relayserver/Poll.cc does it: the loop swaps its list out under the lock and then
  closes the channels on it one by one without the lock, so that accepting, receiving and timer ticks fall between
  two closes. Whether a close can meet a deleted session then depends on what is accepted in the meantime.
 */
module PieceDrains {
  import opened Sessions

  /** A loop's list holds the channels that the loop has swapped out and not closed yet, the first `out` of it, and
      behind them those posted since. */
  datatype Loops = Loops(w: World, out: map<nat, nat>)

  datatype Piece = Other(e: Event) | Swap(loop: nat) | CloseOne(loop: nat)

  function OutOf(p: Loops, loop: nat): (n: nat) {
    if loop in p.out then p.out[loop] else 0
  }

  function Popped(w: World, loop: nat): (w': World)
    requires PendingOf(w, loop) != []
  {
    w.(pending := w.pending[loop := PendingOf(w, loop)[1..]])
  }

  /** The first channel on the list is closed. If its session is gone, this is a use after free. */
  function CloseHead(w: World, loop: nat): (w': World)
    requires PendingOf(w, loop) != []
  {
    var r, w1 := PendingOf(w, loop)[0], Popped(w, loop);
    if Live(w1, r) then Close(w1, r) else w1
  }

  /** A loop swaps only when it has closed all it had swapped out. There is no drain in one step. */
  function StepPiece(p: Loops, x: Piece): (p': Loops) {
    match x
    case Other(e) => if e.LoopDrain? then p else p.(w := Step(p.w, e))
    case Swap(loop) => if OutOf(p, loop) == 0 then p.(out := p.out[loop := |PendingOf(p.w, loop)|]) else p
    case CloseOne(loop) =>
      if OutOf(p, loop) > 0 && PendingOf(p.w, loop) != []
      then Loops(CloseHead(p.w, loop), p.out[loop := OutOf(p, loop) - 1])
      else p
  }

  function RunPieces(p: Loops, xs: seq<Piece>): (p': Loops)
    decreases |xs|
  {
    if xs == [] then p else RunPieces(StepPiece(p, xs[0]), xs[1..])
  }

  /** No loop refers to a channel of a deleted session. */
  ghost predicate AllLive(w: World) {
    && (forall r | r in w.registered :: Live(w, r))
    && (forall loop, r | r in PendingOf(w, loop) :: Live(w, r))
  }

  lemma SafeIsLive(w: World)
    requires Safe(w)
    ensures AllLive(w)
  {
    assert forall r | r in w.registered :: Held(w, r);
    assert forall loop, r | r in PendingOf(w, loop) :: Held(w, r);
  }

  // ---------------------------------------------------------------- the pieces make up the drain

  function CloseHeads(w: World, loop: nat, n: nat): (w': World)
    decreases n
  {
    if n == 0 || PendingOf(w, loop) == [] then w else CloseHeads(CloseHead(w, loop), loop, n - 1)
  }

  lemma {:induction false} CloseAllIgnoresLists(w: World, rs: seq<Ref>, q: map<nat, seq<Ref>>)
    ensures CloseAll(w.(pending := q), rs) == CloseAll(w, rs).(pending := q)
    decreases |rs|
  {
    if rs != [] {
      CloseAllIgnoresLists(if Live(w, rs[0]) then Close(w, rs[0]) else w, rs[1..], q);
    }
  }

  /** The worlds are the same but for lists, and those agree except that of `loop`. */
  ghost predicate SameBut(w: World, w': World, loop: nat) {
    && w' == w.(pending := w'.pending)
    && forall l | l != loop :: PendingOf(w', l) == PendingOf(w, l)
  }

  lemma {:induction false} CloseHeadsIsCloseAll(w: World, loop: nat, n: nat)
    requires n <= |PendingOf(w, loop)|
    ensures var w', rs := CloseHeads(w, loop, n), PendingOf(w, loop);
            SameBut(CloseAll(w, rs[..n]).(pending := w.pending), w', loop) && PendingOf(w', loop) == rs[n..]
    decreases n
  {
    var rs := PendingOf(w, loop);
    if n > 0 {
      var q := w.pending[loop := rs[1..]];
      var w1, w2 := if Live(w, rs[0]) then Close(w, rs[0]) else w, CloseHead(w, loop);
      assert w2 == w1.(pending := q) && PendingOf(w2, loop) == rs[1..];
      CloseHeadsIsCloseAll(w2, loop, n - 1);
      assert rs[1..][..n - 1] == rs[..n][1..] && rs[1..][n - 1..] == rs[n..];
      CloseAllIgnoresLists(w1, rs[..n][1..], q);
      var v := CloseAll(w1, rs[..n][1..]);
      assert CloseAll(w, rs[..n]) == v;
      forall l | l != loop
        ensures PendingOf(CloseHeads(w, loop, n), l) == PendingOf(w, l)
      {
        assert PendingOf(w2, l) == PendingOf(w, l);
      }
    }
  }

  /** With nothing in between, swapping a list and closing all of it is the drain in one step. */
  lemma PiecesMakeDrain(w: World, loop: nat)
    ensures var w', w1 := CloseHeads(w, loop, |PendingOf(w, loop)|), Drain(w, loop);
            w' == w1.(pending := w'.pending) && forall l :: PendingOf(w', l) == PendingOf(w1, l)
  {
    var rs, q := PendingOf(w, loop), w.pending[loop := []];
    CloseHeadsIsCloseAll(w, loop, |rs|);
    assert rs[..|rs|] == rs;
    CloseAllIgnoresLists(w, rs, q);
    CloseAllIgnoresLists(w, rs, w.pending);
  }

  // ---------------------------------------------------------------- lists without repeats

  ghost predicate Distinct(rs: seq<Ref>) {
    forall i, j | 0 <= i < j < |rs| :: rs[i] != rs[j]
  }

  /** A caller is followed by the callee it was posted with. */
  ghost predicate InPairs(rs: seq<Ref>) {
    forall i | 0 <= i < |rs| && rs[i].side.Caller? :: i + 1 < |rs| && rs[i + 1] == rs[i].(side := Callee)
  }

  /** Only posted sessions are listed, and none twice. */
  ghost predicate TidyList(w: World, loop: nat) {
    var rs := PendingOf(w, loop);
    && Distinct(rs) && InPairs(rs)
    && forall r | r in rs && Live(w, r) :: !Open(w.sessions[r.key].caller)
  }

  ghost predicate Tidy(w: World) {
    forall loop :: TidyList(w, loop)
  }

  lemma SameListsTidy(w: World, w': World)
    requires Safe(w) && Tidy(w) && w'.pending == w.pending
    requires forall k | k in w'.sessions && k in w.sessions && w'.sessions[k].uid == w.sessions[k].uid
                        && Open(w'.sessions[k].caller) ::
               Open(w.sessions[k].caller) || !CalleeListed(w, k)
    ensures Tidy(w')
  {
    forall loop
      ensures TidyList(w', loop)
    {
      assert TidyList(w, loop) && PendingOf(w', loop) == PendingOf(w, loop);
      forall r | r in PendingOf(w', loop) && Live(w', r)
        ensures !Open(w'.sessions[r.key].caller)
      {
        assert Held(w, r) && w.sessions[r.key].loop == loop;
        ListedWithCallee(w, r, loop);
      }
    }
  }

  /** The callee of the session is on the list of its loop. */
  ghost predicate CalleeListed(w: World, k: nat)
    requires k in w.sessions
  {
    CalleeRef(w, k) in PendingOf(w, w.sessions[k].loop)
  }

  lemma ListedWithCallee(w: World, r: Ref, loop: nat)
    requires Safe(w) && TidyList(w, loop) && r in PendingOf(w, loop)
    ensures Live(w, r) && w.sessions[r.key].loop == loop && CalleeListed(w, r.key)
  {
    var rs := PendingOf(w, loop);
    assert Held(w, r);
    var i :| 0 <= i < |rs| && rs[i] == r;
    if r.side.Caller? {
      assert rs[i + 1] == r.(side := Callee) && rs[i + 1] in rs;
    }
  }

  // ---------------------------------------------------------------- what the steps do to such lists

  lemma CheckSessionTidy(w: World, k: nat, t: int)
    requires Safe(w) && Tidy(w) && k in w.sessions
    ensures Tidy(CheckSession(w, k, t))
  {
    if MustPost(w.sessions[k], t) {
      forall loop
        ensures TidyList(CheckSession(w, k, t), loop)
      {
        PostedTidy(w, k, t, loop);
      }
    }
  }

  lemma PostedTidy(w: World, k: nat, t: int, loop: nat)
    requires Safe(w) && Tidy(w) && k in w.sessions && MustPost(w.sessions[k], t)
    ensures TidyList(CheckSession(w, k, t), loop)
  {
    var w', rs := CheckSession(w, k, t), PendingOf(w, loop);
    assert TidyList(w, loop);
    NotListed(w, k, loop);
    PostedList(w, k, t);
    CheckSessionEffect(w, k, t);
    if loop == w.sessions[k].loop {
      PairAppended(rs, CallerRef(w, k), CalleeRef(w, k), w.udp);
    }
    assert forall r | r in PendingOf(w', loop) :: r in rs || r.key == k;
  }

  lemma PostedList(w: World, k: nat, t: int)
    requires k in w.sessions && MustPost(w.sessions[k], t)
    ensures var w', loop := CheckSession(w, k, t), w.sessions[k].loop;
            && PendingOf(w', loop) == Appended(PendingOf(w, loop), CallerRef(w, k), CalleeRef(w, k), w.udp)
            && forall l | l != loop :: PendingOf(w', l) == PendingOf(w, l)
  {
  }

  /** What posting a session adds: both channels, or only the callee where the caller is on no loop. */
  function Appended(rs: seq<Ref>, caller: Ref, callee: Ref, udp: bool): (qs: seq<Ref>) {
    if udp then rs + [callee] else rs + [caller] + [callee]
  }

  lemma PairAppended(rs: seq<Ref>, caller: Ref, callee: Ref, udp: bool)
    requires Distinct(rs) && InPairs(rs) && caller !in rs && callee !in rs
    requires caller.side.Caller? && callee == caller.(side := Callee)
    ensures Distinct(Appended(rs, caller, callee, udp)) && InPairs(Appended(rs, caller, callee, udp))
  {
    var qs := Appended(rs, caller, callee, udp);
    assert forall i | 0 <= i < |rs| :: qs[i] == rs[i];
    assert forall i | 0 <= i < |rs| && rs[i].side.Caller? :: rs[i + 1] == rs[i].(side := Callee);
  }

  lemma NotListed(w: World, k: nat, loop: nat)
    requires Safe(w) && TidyList(w, loop) && k in w.sessions && Open(w.sessions[k].caller)
    ensures forall r | r in PendingOf(w, loop) :: r.key != k
  {
    forall r | r in PendingOf(w, loop)
      ensures r.key != k
    {
      assert Held(w, r);
    }
  }

  lemma {:induction false} CheckAllTidy(w: World, ks: seq<nat>, t: int)
    requires Safe(w) && Tidy(w)
    ensures Tidy(CheckAll(w, ks, t).w)
    decreases |ks|
  {
    if ks != [] {
      if ks[0] in w.sessions {
        CheckSessionTidy(w, ks[0], t);
        CheckSessionSafe(w, ks[0], t);
        CheckAllTidy(CheckSession(w, ks[0], t), ks[1..], t);
      } else {
        CheckAllTidy(w, ks[1..], t);
      }
    }
  }

  lemma TickTidy(w: World, t: int, order: seq<nat>)
    requires Safe(w) && Tidy(w) && NoRepeats(order)
    ensures Tidy(Tick(w, t, order))
  {
    var r := CheckAll(w, order, t);
    CheckAllTidy(w, order, t);
    CheckAllSafe(w, order, t);
    DeleteAllEffect(r.w, r.dead);
    SameListsTidy(r.w, Tick(w, t, order));
  }

  /** Closing the first channel of a list without repeats touches a live session, and leaves all others listed. */
  lemma CloseHeadTidy(w: World, loop: nat)
    requires Safe(w) && Tidy(w) && PendingOf(w, loop) != []
    ensures Live(w, PendingOf(w, loop)[0])
    ensures Safe(CloseHead(w, loop)) && Tidy(CloseHead(w, loop))
  {
    var rs := PendingOf(w, loop);
    var r, w1, w' := rs[0], Popped(w, loop), CloseHead(w, loop);
    assert TidyList(w, loop);
    PoppedSafe(w, loop);
    CloseSafe(w1, r);
    forall l
      ensures TidyList(w', l)
    {
      assert TidyList(w, l) && PendingOf(w', l) == PendingOf(w1, l);
      assert forall q | q in PendingOf(w1, l) :: q in PendingOf(w, l);
      if l == loop {
        TailTidy(rs);
      }
    }
  }

  lemma PoppedSafe(w: World, loop: nat)
    requires Safe(w) && PendingOf(w, loop) != [] && Distinct(PendingOf(w, loop))
    ensures var w1, r := Popped(w, loop), PendingOf(w, loop)[0];
            && Safe(w1) && Live(w1, r) && NotPending(w1, r)
            && PendingOf(w1, loop) == PendingOf(w, loop)[1..]
            && forall l | l != loop :: PendingOf(w1, l) == PendingOf(w, l)
  {
    var rs, w1 := PendingOf(w, loop), Popped(w, loop);
    var r := rs[0];
    assert r in rs && Held(w, r);
    assert PendingOf(w1, loop) == rs[1..] && forall l | l != loop :: PendingOf(w1, l) == PendingOf(w, l);
    assert Safe(w1) by {
      assert forall q :: Held(w1, q) <==> Held(w, q);
      assert forall q | q in rs[1..] :: q in rs;
    }
    forall l
      ensures r !in PendingOf(w1, l)
    {
      assert r in PendingOf(w, l) ==> w.sessions[r.key].loop == l;
      if l == loop {
        assert forall i | 0 <= i < |rs[1..]| :: rs[1..][i] == rs[i + 1] != r;
      }
    }
  }

  lemma TailTidy(rs: seq<Ref>)
    requires Distinct(rs) && InPairs(rs) && rs != []
    ensures Distinct(rs[1..]) && InPairs(rs[1..])
  {
    assert forall i | 0 <= i < |rs| - 1 :: rs[1..][i] == rs[i + 1];
    forall i | 0 <= i < |rs[1..]| && rs[1..][i].side.Caller?
      ensures i + 1 < |rs[1..]| && rs[1..][i + 1] == rs[1..][i].(side := Callee)
    {
      assert rs[i + 1].side.Caller?;
    }
  }

  // ---------------------------------------------------------------- runs

  /** The step is not the acceptance of a known caller whose callee is still listed. */
  ghost predicate Harmless(w: World, x: Piece) {
    x.Other? && x.e.Accept? && x.e.key in w.sessions ==> !CalleeListed(w, x.e.key)
  }

  lemma StepPieceSafe(p: Loops, x: Piece)
    requires Safe(p.w) && Tidy(p.w) && Harmless(p.w, x)
    ensures Safe(StepPiece(p, x).w) && Tidy(StepPiece(p, x).w)
  {
    match x
    case Other(e) => if !e.LoopDrain? { StepSafe(p.w, e); StepTidy(p.w, e); }
    case Swap(loop) =>
    case CloseOne(loop) => if PendingOf(p.w, loop) != [] { CloseHeadTidy(p.w, loop); }
  }

  lemma StepTidy(w: World, e: Event)
    requires Safe(w) && Tidy(w) && !e.LoopDrain? && Harmless(w, Other(e))
    ensures Tidy(Step(w, e))
  {
    match e
    case TimerTick(t, order) => if Enumerates(order, w.sessions.Keys) { TickTidy(w, t, order); }
    case Accept(k, t) =>
      AcceptOpens(w, k, t);
      SameListsTidy(w, Step(w, e));
    case _ => SameListsTidy(w, Step(w, e));
  }

  ghost predicate AllHarmless(p: Loops, xs: seq<Piece>)
    decreases |xs|
  {
    xs == [] || (Harmless(p.w, xs[0]) && AllHarmless(StepPiece(p, xs[0]), xs[1..]))
  }

  /** Whatever falls between the closes: as long as no known caller is accepted while its callee is listed, no loop
      ever refers to a deleted session. */
  lemma {:induction false} RunPiecesSafe(p: Loops, xs: seq<Piece>)
    requires Safe(p.w) && Tidy(p.w) && AllHarmless(p, xs)
    ensures Safe(RunPieces(p, xs).w) && Tidy(RunPieces(p, xs).w)
    decreases |xs|
  {
    if xs != [] {
      StepPieceSafe(p, xs[0]);
      RunPiecesSafe(StepPiece(p, xs[0]), xs[1..]);
    }
  }

  lemma PiecewiseIsSafe(udp: bool, loops: nat, xs: seq<Piece>)
    requires AllHarmless(Loops(Start(udp, loops), map[]), xs)
    ensures var w := RunPieces(Loops(Start(udp, loops), map[]), xs).w;
            Safe(w) && Tidy(w) && AllLive(w)
  {
    RunPiecesSafe(Loops(Start(udp, loops), map[]), xs);
    SafeIsLive(RunPieces(Loops(Start(udp, loops), map[]), xs).w);
  }

  // ---------------------------------------------------------------- a channel that is listed twice

  ghost predicate ListsExtend(w: World, w': World) {
    forall loop :: PendingOf(w, loop) <= PendingOf(w', loop)
  }

  lemma CheckSessionExtends(w: World, k: nat, t: int)
    requires k in w.sessions
    ensures ListsExtend(w, CheckSession(w, k, t))
  {
    if MustPost(w.sessions[k], t) {
      PostedList(w, k, t);
    }
  }

  lemma {:induction false} CheckAllExtends(w: World, ks: seq<nat>, t: int)
    ensures ListsExtend(w, CheckAll(w, ks, t).w)
    decreases |ks|
  {
    if ks != [] {
      var w1 := if ks[0] in w.sessions then CheckSession(w, ks[0], t) else w;
      if ks[0] in w.sessions {
        CheckSessionExtends(w, ks[0], t);
      }
      CheckAllExtends(w1, ks[1..], t);
      ExtendTwice(w, w1, CheckAll(w, ks, t).w);
    }
  }

  lemma ExtendTwice(w: World, w1: World, w2: World)
    requires ListsExtend(w, w1) && ListsExtend(w1, w2)
    ensures ListsExtend(w, w2)
  {
    forall loop
      ensures PendingOf(w, loop) <= PendingOf(w2, loop)
    {
      assert PendingOf(w, loop) <= PendingOf(w1, loop) <= PendingOf(w2, loop);
    }
  }

  /** Position `j` of the list of the session's loop in `w'`, behind all that was there in `w`, holds its callee,
      and its caller comes before. */
  ghost predicate PostedAt(w: World, w': World, k: nat, j: nat)
    requires k in w.sessions
  {
    var rs, qs := PendingOf(w, w.sessions[k].loop), PendingOf(w', w.sessions[k].loop);
    && |rs| <= j < |qs| && rs <= qs && qs[j] == CalleeRef(w, k)
    && (w.udp || CallerRef(w, k) in qs[..j])
  }

  lemma PostedAtLater(w: World, w1: World, w2: World, k: nat, j: nat)
    requires k in w.sessions && PostedAt(w, w1, k, j) && ListsExtend(w1, w2)
    ensures PostedAt(w, w2, k, j)
  {
    var loop := w.sessions[k].loop;
    assert PendingOf(w1, loop) <= PendingOf(w2, loop);
    assert PendingOf(w2, loop)[..j] == PendingOf(w1, loop)[..j];
  }

  lemma CheckPostsBehind(w: World, k: nat, t: int) returns (j: nat)
    requires k in w.sessions && MustPost(w.sessions[k], t)
    ensures PostedAt(w, CheckSession(w, k, t), k, j)
  {
    PostedList(w, k, t);
    var rs := PendingOf(w, w.sessions[k].loop);
    var qs := Appended(rs, CallerRef(w, k), CalleeRef(w, k), w.udp);
    j := |qs| - 1;
    assert !w.udp ==> qs[..j][j - 1] == CallerRef(w, k);
  }

  lemma {:induction false} PostedBehind(w: World, ks: seq<nat>, t: int, k: nat) returns (j: nat)
    requires k in w.sessions && k in ks && NoRepeats(ks) && MustPost(w.sessions[k], t)
    ensures PostedAt(w, CheckAll(w, ks, t).w, k, j)
    decreases |ks|
  {
    var tail := ks[1..];
    if ks[0] == k {
      j := CheckPostsBehind(w, k, t);
      CheckAllExtends(CheckSession(w, k, t), tail, t);
      PostedAtLater(w, CheckSession(w, k, t), CheckAll(w, ks, t).w, k, j);
    } else {
      assert forall i | 0 <= i < |tail| :: tail[i] == ks[i + 1];
      assert ks == [ks[0]] + tail && k in tail;
      var w1 := if ks[0] in w.sessions then CheckSession(w, ks[0], t) else w;
      if ks[0] in w.sessions {
        CheckSessionFrame(w, ks[0], t);
        CheckSessionExtends(w, ks[0], t);
      }
      j := PostedBehind(w1, tail, t, k);
      assert PendingOf(w, w.sessions[k].loop) <= PendingOf(w1, w.sessions[k].loop);
    }
  }

  // ---------------------------------------------------------------- closing some of a list

  ghost predicate NoAccepts(xs: seq<Piece>) {
    forall i | 0 <= i < |xs| :: !(xs[i].Other? && xs[i].e.Accept?)
  }

  lemma {:induction false} RunPiecesAppend(p: Loops, xs: seq<Piece>, ys: seq<Piece>)
    ensures RunPieces(p, xs + ys) == RunPieces(RunPieces(p, xs), ys)
    decreases |xs|
  {
    if xs == [] {
      assert xs + ys == ys;
    } else {
      assert (xs + ys)[1..] == xs[1..] + ys;
      RunPiecesAppend(StepPiece(p, xs[0]), xs[1..], ys);
    }
  }

  lemma RunOnePiece(p: Loops, x: Piece)
    ensures RunPieces(p, [x]) == StepPiece(p, x)
  {
    assert [x][1..] == [];
    assert RunPieces(StepPiece(p, x), []) == StepPiece(p, x);
  }

  /** A loop can come to close the first `n` channels of its list before anything else happens. */
  lemma {:induction false} CloseSome(p: Loops, loop: nat, n: nat) returns (xs: seq<Piece>)
    requires n <= |PendingOf(p.w, loop)|
    ensures NoAccepts(xs) && RunPieces(p, xs).w == CloseHeads(p.w, loop, n)
    decreases n
  {
    if n == 0 {
      return [];
    }
    var p1, first := p, [];
    if OutOf(p, loop) == 0 {
      p1, first := StepPiece(p, Swap(loop)), [Swap(loop)];
      RunOnePiece(p, Swap(loop));
    }
    assert RunPieces(p, first) == p1 && p1.w == p.w && OutOf(p1, loop) > 0;
    var p2 := StepPiece(p1, CloseOne(loop));
    RunOnePiece(p1, CloseOne(loop));
    assert PendingOf(p2.w, loop) == PendingOf(p.w, loop)[1..];
    var rest := CloseSome(p2, loop, n - 1);
    RunPiecesAppend(p1, [CloseOne(loop)], rest);
    RunPiecesAppend(p, first, [CloseOne(loop)] + rest);
    xs := first + ([CloseOne(loop)] + rest);
  }

  /** The session `k` with those of its channels closed that are among `rs`. */
  ghost predicate ClosedAmong(w: World, w': World, k: nat, rs: seq<Ref>)
    requires k in w.sessions
  {
    var s := w.sessions[k];
    && k in w'.sessions
    && w'.sessions[k] == s.(caller := ClosedIf(s.caller, CallerRef(w, k) in rs),
                            callee := ClosedIf(s.callee, CalleeRef(w, k) in rs))
  }

  lemma CloseHeadsEffect(w: World, loop: nat, n: nat, k: nat)
    requires n <= |PendingOf(w, loop)| && k in w.sessions
    ensures ClosedAmong(w, CloseHeads(w, loop, n), k, PendingOf(w, loop)[..n])
    ensures PendingOf(CloseHeads(w, loop, n), loop) == PendingOf(w, loop)[n..]
  {
    CloseHeadsIsCloseAll(w, loop, n);
    CloseAllEffect(w, PendingOf(w, loop)[..n], k);
  }

  lemma Enumeration(keys: set<nat>) returns (order: seq<nat>)
    ensures Enumerates(order, keys)
  {
    order := [];
    var left := keys;
    while left != {}
      invariant left <= keys && Enumerates(order, keys - left)
      decreases left
    {
      var k :| k in left;
      left := left - {k};
      order := order + [k];
    }
    assert keys - left == keys;
  }

  // ---------------------------------------------------------------- accepting a listed session

  /** After a tick posts the session once more, its callee is on the list twice, and the loop closes all that comes
      before the second time: the session is closed on both sides and still listed. */
  lemma ClosedYetListed(p: Loops, k: nat, t: int, order: seq<nat>) returns (xs: seq<Piece>)
    requires k in p.w.sessions && MustPost(p.w.sessions[k], t) && CalleeListed(p.w, k)
    requires Enumerates(order, p.w.sessions.Keys)
    ensures NoAccepts(xs)
    ensures var w, w' := p.w, RunPieces(StepPiece(p, Other(TimerTick(t, order))), xs).w;
            && BothClosed(w', k) && w'.sessions[k].caller.lastRecv == w.sessions[k].caller.lastRecv
            && CalleeRef(w, k) in PendingOf(w', w.sessions[k].loop)
  {
    var w, loop := p.w, p.w.sessions[k].loop;
    var p1 := StepPiece(p, Other(TimerTick(t, order)));
    var r := CheckAll(w, order, t);
    var j := PostedBehind(w, order, t, k);
    TickExactly(w, t, order, k);
    DeleteAllEffect(r.w, r.dead);
    var rs, qs := PendingOf(w, loop), PendingOf(p1.w, loop);
    assert qs == PendingOf(r.w, loop);
    assert CalleeRef(w, k) in qs[..j] by {
      var i :| 0 <= i < |rs| && rs[i] == CalleeRef(w, k);
      assert qs[..j][i] == rs[i];
    }
    xs := CloseSome(p1, loop, j);
    CloseHeadsEffect(p1.w, loop, j, k);
    assert qs[j..][0] == CalleeRef(w, k);
  }

  /** A tick that finds such a session silent deletes it, and the loop is left with a reference to it. */
  lemma DeletedYetListed(w: World, k: nat, t: int, order: seq<nat>, r: Ref, loop: nat)
    requires BothClosed(w, k) && Silent(w.sessions[k], t) && Enumerates(order, w.sessions.Keys)
    requires r.key == k && r in PendingOf(w, loop)
    ensures !AllLive(Tick(w, t, order))
  {
    TickExactly(w, t, order, k);
    CheckAllExtends(w, order, t);
    var c := CheckAll(w, order, t);
    DeleteAllEffect(c.w, c.dead);
    var w' := Tick(w, t, order);
    assert PendingOf(w, loop) <= PendingOf(c.w, loop) == PendingOf(w', loop);
    assert r in PendingOf(w', loop) && !Live(w', r);
  }

  /** Accepting a known caller whose callee is listed can end in a use after free, without another acceptance. */
  lemma ListedAcceptDangles(p: Loops, k: nat, t: int) returns (xs: seq<Piece>)
    requires k in p.w.sessions && CalleeListed(p.w, k)
    ensures NoAccepts(xs) && !AllLive(RunPieces(StepPiece(p, Other(Accept(k, t))), xs).w)
  {
    var p1, u := StepPiece(p, Other(Accept(k, t))), t + DEFAULT_TIMEOUT_SEC;
    assert k in p1.w.sessions && MustPost(p1.w.sessions[k], u) && CalleeListed(p1.w, k) by {
      assert PendingOf(p1.w, p.w.sessions[k].loop) == PendingOf(p.w, p.w.sessions[k].loop);
    }
    var order := Enumeration(p1.w.sessions.Keys);
    var tick := Other(TimerTick(u, order));
    var ys := ClosedYetListed(p1, k, u, order);
    var p3 := RunPieces(StepPiece(p1, tick), ys);
    var order' := Enumeration(p3.w.sessions.Keys);
    var tick' := Other(TimerTick(u, order'));
    DeletedYetListed(p3.w, k, u, order', CalleeRef(p1.w, k), p1.w.sessions[k].loop);
    xs := [tick] + (ys + [tick']);
    RunOnePiece(p1, tick);
    RunOnePiece(p3, tick');
    RunPiecesAppend(StepPiece(p1, tick), ys, [tick']);
    RunPiecesAppend(p1, [tick], ys + [tick']);
  }

  lemma {:induction false} NoAcceptsHarmless(p: Loops, xs: seq<Piece>)
    requires NoAccepts(xs)
    ensures AllHarmless(p, xs)
    decreases |xs|
  {
    if xs != [] {
      assert forall i | 0 <= i < |xs[1..]| :: xs[1..][i] == xs[i + 1];
      NoAcceptsHarmless(StepPiece(p, xs[0]), xs[1..]);
    }
  }

  /** Exactly: in a state with tidy lists, accepting a known caller is followed by safe runs only, up to the next
      acceptance, if and only if its callee is not listed at that moment. */
  lemma AcceptIsHarmlessIff(p: Loops, k: nat, t: int)
    requires Safe(p.w) && Tidy(p.w) && k in p.w.sessions
    ensures (forall xs | NoAccepts(xs) :: AllLive(RunPieces(StepPiece(p, Other(Accept(k, t))), xs).w)) <==>
            !CalleeListed(p.w, k)
  {
    var accept := Other(Accept(k, t));
    if CalleeListed(p.w, k) {
      var xs := ListedAcceptDangles(p, k, t);
    } else {
      StepPieceSafe(p, accept);
      forall xs | NoAccepts(xs)
        ensures AllLive(RunPieces(StepPiece(p, accept), xs).w)
      {
        NoAcceptsHarmless(StepPiece(p, accept), xs);
        RunPiecesSafe(StepPiece(p, accept), xs);
        SafeIsLive(RunPieces(StepPiece(p, accept), xs).w);
      }
    }
  }

  /** Such a moment is easily reached: the first caller falls silent, is posted, and comes back before the drain. */
  lemma ReturningCallerDangles(udp: bool, loops: nat, k: nat, t: int, t1: int) returns (xs: seq<Piece>)
    ensures var start := Loops(Start(udp, loops), map[]);
            var tick := TimerTick(t + DEFAULT_TIMEOUT_SEC, [k]);
            var p := RunPieces(start, [Other(Accept(k, t)), Other(tick), Other(Accept(k, t1))]);
            NoAccepts(xs) && !AllLive(RunPieces(p, xs).w)
  {
    var start := Loops(Start(udp, loops), map[]);
    var w2, tick := FirstTimeout(udp, loops, k, t);
    var p1 := StepPiece(start, Other(Accept(k, t)));
    var p2 := StepPiece(p1, Other(tick));
    assert p2.w == w2 && CalleeListed(w2, k);
    xs := ListedAcceptDangles(p2, k, t1);
    RunOnePiece(p2, Other(Accept(k, t1)));
    var last := [Other(Accept(k, t1))];
    assert [Other(tick), Other(Accept(k, t1))][1..] == last;
    assert [Other(Accept(k, t)), Other(tick), Other(Accept(k, t1))][1..] == [Other(tick), Other(Accept(k, t1))];
  }
}
