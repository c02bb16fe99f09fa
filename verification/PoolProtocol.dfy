/** `TimeoutPoolExtension.Use` as a protocol: any number of calls, interleaved at every shared access.
    Receivers take items from the channel without a lock; only pushes are serialised. `Close` begins
    when no call is in flight. */
module PoolProtocol {
  import opened Options
  import opened IdleClock
  import opened ItemLayout

  datatype Item = Item(id: nat, stamp: int)

  /** What a call does next. */
  datatype Pc =
    | TestInit                                 // isInit.Load
    | WantInit                                 // initLock.Lock
    | RunOnce                                  // once.Do
    | LeaveInit                                // initLock.Unlock
    | StoreInit                                // isInit.Store
    | Receive                                  // select on the channel
    | Check(item: Item)                        // expiry test of a received item
    | Create                                   // Gen
    | CountIn(item: Item)                      // useCnt.Add(1)
    | Using(item: Item)                        // useFn
    | CountOut(item: Item, ok: bool)           // useCnt.Add(-1)
    | CloseFailed(item: Item)                  // useFn failed: close the item
    | CountErr                                 // accErrCnt.Add(1)
    | TestClosed(item: Item)                   // isClose.Load before the push
    | WantPush(item: Item)                     // chanPushLock.Lock
    | TestRoom(item: Item)                     // len(chanPool) < realMaxCnt
    | Send(item: Item)                         // stamp and send
    | CloseFull(item: Item)                    // no room: close the item
    | LeavePush                                // chanPushLock.Unlock
    | Out                                      // the call has returned

  predicate Holds(c: Pc) {
    c.Check? || c.CountIn? || c.Using? || c.CountOut? || c.CloseFailed? || c.TestClosed? || c.WantPush? || c.TestRoom? ||
    c.Send? || c.CloseFull?
  }

  predicate HasInitLock(c: Pc) { c.RunOnce? || c.LeaveInit? }
  predicate HasPushLock(c: Pc) { c.TestRoom? || c.Send? || c.CloseFull? || c.LeavePush? }
  predicate BeforeInit(c: Pc) { c.TestInit? || c.WantInit? || c.RunOnce? }
  predicate InWindow(c: Pc) { c.Using? || c.CountOut? }

  datatype Config = Config(max: int, timeout: int)

  /** The shared fields. `made` counts how often the channel was made; `generated`, `closed` and `dropped` record
      what became of the items. */
  datatype Shared = Shared(
    init: bool, initLock: Option<nat>, made: nat, cap: nat,
    queue: seq<Item>, pushLock: Option<nat>,
    useCnt: int, accErr: int, isClosed: bool, drained: bool,
    generated: nat, closed: seq<nat>, dropped: set<nat>)

  /** The pool with the calls in flight. */
  datatype Pool = Pool(g: Shared, pc: map<nat, Pc>)

  const NEW: Pool := Pool(Shared(false, None, 0, 0, [], None, 0, 0, false, false, 0, [], {}), map[])

  function RealMax(cfg: Config): nat {
    if cfg.max > 0 then cfg.max else 10
  }

  datatype Outcome = Wait | Go(g: Shared, c: Pc)

  /** What call `t` at `c` does next at time `now`; `ok` says whether Gen or useFn succeeds. It waits for a
      lock, or for room in the channel. */
  function Act(cfg: Config, g: Shared, t: nat, c: Pc, now: nat, ok: bool): Outcome {
    match c
    case TestInit => Go(g, if g.init then Receive else WantInit)
    case WantInit => if g.initLock.Some? then Wait else Go(g.(initLock := Some(t)), RunOnce)
    case RunOnce => Go(if g.made == 0 then g.(cap := RealMax(cfg), queue := [], made := 1) else g, LeaveInit)
    case LeaveInit => Go(g.(initLock := None), StoreInit)
    case StoreInit => Go(g.(init := true), Receive)
    case Receive => if g.queue == [] then Go(g, Create) else Go(g.(queue := g.queue[1..]), Check(g.queue[0]))
    case Check(item) =>
      if Expired(now, item.stamp, cfg.timeout) then Go(g.(closed := g.closed + [item.id]), Receive) else Go(g, CountIn(item))
    case Create =>
      if ok then Go(g.(generated := g.generated + 1), CountIn(Item(g.generated, 0))) else Go(g, CountErr)
    case CountIn(item) => Go(g.(useCnt := g.useCnt + 1), Using(item))
    case Using(item) => Go(g, CountOut(item, ok))
    case CountOut(item, fine) => Go(g.(useCnt := g.useCnt - 1), if fine then TestClosed(item) else CloseFailed(item))
    case CloseFailed(item) => Go(g.(closed := g.closed + [item.id]), CountErr)
    case CountErr => Go(g.(accErr := g.accErr + 1), Out)
    case TestClosed(item) => if g.isClosed then Go(g.(dropped := g.dropped + {item.id}), Out) else Go(g, WantPush(item))
    case WantPush(item) => if g.pushLock.Some? then Wait else Go(g.(pushLock := Some(t)), TestRoom(item))
    case TestRoom(item) => Go(g, if |g.queue| < g.cap then Send(item) else CloseFull(item))
    case Send(item) =>
      if |g.queue| < g.cap then Go(g.(queue := g.queue + [Item(item.id, Stamp(now))]), LeavePush) else Wait
    case CloseFull(item) => Go(g.(closed := g.closed + [item.id]), LeavePush)
    case LeavePush => Go(g.(pushLock := None), Out)
    case Out => Wait
  }

  function Place(pc: map<nat, Pc>, t: nat, c: Pc): map<nat, Pc> {
    if c.Out? then pc - {t} else pc[t := c]
  }

  function Move(s: Pool, t: nat, o: Outcome): Option<Pool> {
    if o.Wait? then None else Some(Pool(o.g, Place(s.pc, t, o.c)))
  }

  datatype Action = Enter(t: nat) | Next(t: nat, now: nat, ok: bool) | BeginClose | Drain | FinishClose

  function Step(cfg: Config, s: Pool, a: Action): Option<Pool> {
    match a
    case Enter(t) => if t in s.pc || s.g.isClosed then None else Some(s.(pc := s.pc[t := TestInit]))
    case Next(t, now, ok) => if t in s.pc then Move(s, t, Act(cfg, s.g, t, s.pc[t], now, ok)) else None
    case BeginClose => if s.pc != map[] || s.g.isClosed then None else Some(s.(g := s.g.(isClosed := true)))
    case Drain =>
      if !s.g.isClosed || s.g.drained || s.g.queue == [] then None
      else Some(s.(g := s.g.(queue := s.g.queue[1..], closed := s.g.closed + [s.g.queue[0].id])))
    case FinishClose => if !s.g.isClosed || s.g.drained || s.g.queue != [] then None else Some(s.(g := s.g.(drained := true)))
  }

  /** The state after a run; None when some action was not possible. */
  function Run(cfg: Config, actions: seq<Action>): Option<Pool> {
    if actions == [] then Some(NEW)
    else
      var before := Run(cfg, actions[..|actions| - 1]);
      if before.None? then None else Step(cfg, before.value, actions[|actions| - 1])
  }

  // ---------------------------------------------------------------- invariant

  function Held(pc: map<nat, Pc>): map<nat, nat> {
    map t | t in pc && Holds(pc[t]) :: pc[t].item.id
  }

  function Ids(queue: seq<Item>): seq<nat> {
    seq(|queue|, i requires 0 <= i < |queue| => queue[i].id)
  }

  function LayoutOf(g: Shared, pc: map<nat, Pc>): Layout {
    Layout(Ids(g.queue), Held(pc), g.closed, g.generated)
  }

  function Window(pc: map<nat, Pc>): set<nat> {
    set t | t in pc && InWindow(pc[t])
  }

  ghost predicate LocksAreExclusive(s: Pool) {
    && (forall t | t in s.pc :: HasInitLock(s.pc[t]) <==> s.g.initLock == Some(t))
    && (forall t | t in s.pc :: HasPushLock(s.pc[t]) <==> s.g.pushLock == Some(t))
    && (s.g.initLock.Some? ==> s.g.initLock.value in s.pc)
    && (s.g.pushLock.Some? ==> s.g.pushLock.value in s.pc)
  }

  predicate ChannelFits(cfg: Config, g: Shared, c: Pc) {
    && g.made <= 1
    && (g.made == 0 ==> g.queue == [] && g.cap == 0 && !g.init && (BeforeInit(c) || c.Out?))
    && (g.made == 1 ==> g.cap == RealMax(cfg))
    && |g.queue| <= g.cap
  }

  ghost predicate RoomIsKept(s: Pool) {
    forall t | t in s.pc && s.pc[t].Send? :: |s.g.queue| < s.g.cap
  }

  ghost predicate CloseIsAlone(s: Pool) {
    && (s.g.isClosed ==> s.pc == map[])
    && (s.g.drained ==> s.g.isClosed && s.g.queue == [])
    && s.g.dropped == {}
  }

  ghost predicate Inv(cfg: Config, s: Pool) {
    && Out !in s.pc.Values
    && LocksAreExclusive(s)
    && ChannelFits(cfg, s.g, Out) && (forall t | t in s.pc :: ChannelFits(cfg, s.g, s.pc[t]))
    && RoomIsKept(s)
    && CloseIsAlone(s)
    && s.g.useCnt == |Window(s.pc)|
    && ExactlyOnePlace(LayoutOf(s.g, s.pc))
  }

  /** The kinds of change a move makes to the items. */
  datatype Change = Same | Taken | Fresh | Back | Shut

  function ChangeOf(cfg: Config, g: Shared, c: Pc, now: nat, ok: bool): Change {
    if c.Receive? && g.queue != [] then Taken
    else if c.Create? && ok then Fresh
    else if c.Send? then Back
    else if c.CloseFailed? || c.CloseFull? || (c.Check? && Expired(now, c.item.stamp, cfg.timeout)) then Shut
    else Same
  }

  /** What one move does, seen from the call that makes it. */
  lemma ActItems(cfg: Config, g: Shared, t: nat, c: Pc, now: nat, ok: bool)
    requires Act(cfg, g, t, c, now, ok).Go? && !g.isClosed && ChannelFits(cfg, g, c)
    ensures var Go(h, d) := Act(cfg, g, t, c, now, ok);
      match ChangeOf(cfg, g, c, now, ok)
      case Same => h.queue == g.queue && h.closed == g.closed && h.generated == g.generated &&
                   Holds(c) == Holds(d) && (Holds(c) ==> c.item == d.item)
      case Taken => h == g.(queue := g.queue[1..]) && !Holds(c) && Holds(d) && d.item == g.queue[0]
      case Fresh => h == g.(generated := g.generated + 1) && !Holds(c) && Holds(d) && d.item.id == g.generated
      case Back => h == g.(queue := g.queue + [Item(c.item.id, Stamp(now))]) && Holds(c) && !Holds(d)
      case Shut => h == g.(closed := g.closed + [c.item.id]) && Holds(c) && !Holds(d)
  {}

  /** A lock is only taken when free and only released by its holder. */
  predicate LockMove(before: Option<nat>, after: Option<nat>, t: nat) {
    after == before || (before == None && after == Some(t)) || (before == Some(t) && after == None)
  }

  lemma ActInitLock(cfg: Config, g: Shared, t: nat, c: Pc, now: nat, ok: bool)
    requires Act(cfg, g, t, c, now, ok).Go? && (HasInitLock(c) <==> g.initLock == Some(t))
    ensures var Go(h, d) := Act(cfg, g, t, c, now, ok);
      (HasInitLock(d) <==> h.initLock == Some(t)) && LockMove(g.initLock, h.initLock, t)
  {}

  lemma ActPushLock(cfg: Config, g: Shared, t: nat, c: Pc, now: nat, ok: bool)
    requires Act(cfg, g, t, c, now, ok).Go? && (HasPushLock(c) <==> g.pushLock == Some(t))
    ensures var Go(h, d) := Act(cfg, g, t, c, now, ok);
      (HasPushLock(d) <==> h.pushLock == Some(t)) && LockMove(g.pushLock, h.pushLock, t)
  {}

  lemma ActChannel(cfg: Config, g: Shared, t: nat, c: Pc, now: nat, ok: bool)
    requires Act(cfg, g, t, c, now, ok).Go? && ChannelFits(cfg, g, c)
    ensures var Go(h, d) := Act(cfg, g, t, c, now, ok);
      && ChannelFits(cfg, h, d) && (h.made == 0 ==> g.made == 0)
      && (g.made == 1 ==> h.cap == g.cap && (|h.queue| <= |g.queue| || HasPushLock(c)))
      && (d.Send? ==> c.TestRoom? && |h.queue| < h.cap)
      && (c.Send? ==> !d.Send?)
  {}

  lemma ActCounts(cfg: Config, g: Shared, t: nat, c: Pc, now: nat, ok: bool)
    requires Act(cfg, g, t, c, now, ok).Go?
    ensures var Go(h, d) := Act(cfg, g, t, c, now, ok);
      && h.useCnt - g.useCnt == (if InWindow(d) then 1 else 0) - (if InWindow(c) then 1 else 0)
      && h.isClosed == g.isClosed && h.drained == g.drained && (!g.isClosed ==> h.dropped == g.dropped)
      && g.closed <= h.closed
  {}

  lemma LocksKept(cfg: Config, s: Pool, t: nat, now: nat, ok: bool)
    requires t in s.pc && LocksAreExclusive(s) && Act(cfg, s.g, t, s.pc[t], now, ok).Go?
    ensures LocksAreExclusive(Move(s, t, Act(cfg, s.g, t, s.pc[t], now, ok)).value)
  {
    ActInitLock(cfg, s.g, t, s.pc[t], now, ok);
    ActPushLock(cfg, s.g, t, s.pc[t], now, ok);
  }

  /** The test for room stays true until the send: only the lock holder adds items. */
  lemma RoomKept(cfg: Config, s: Pool, t: nat, now: nat, ok: bool)
    requires t in s.pc && Act(cfg, s.g, t, s.pc[t], now, ok).Go?
    requires LocksAreExclusive(s) && RoomIsKept(s) && forall u | u in s.pc :: ChannelFits(cfg, s.g, s.pc[u])
    ensures var s' := Move(s, t, Act(cfg, s.g, t, s.pc[t], now, ok)).value;
      RoomIsKept(s') && ChannelFits(cfg, s'.g, Out) && forall u | u in s'.pc :: ChannelFits(cfg, s'.g, s'.pc[u])
  {
    ActChannel(cfg, s.g, t, s.pc[t], now, ok);
  }

  lemma WindowPlace(pc: map<nat, Pc>, t: nat, d: Pc)
    ensures Window(Place(pc, t, d)) == if InWindow(d) then Window(pc) + {t} else Window(pc) - {t}
  {}

  lemma WindowKept(pc: map<nat, Pc>, t: nat, d: Pc)
    requires t in pc
    ensures |Window(Place(pc, t, d))| - |Window(pc)| == (if InWindow(d) then 1 else 0) - (if InWindow(pc[t]) then 1 else 0)
  {
    var before := Window(pc);
    WindowPlace(pc, t, d);
    assert t in before <==> InWindow(pc[t]);
    if InWindow(pc[t]) {
      assert before + {t} == before;
      assert before == (before - {t}) + {t};
    } else {
      assert before - {t} == before;
      assert |before + {t}| == |before| + 1;
    }
  }

  lemma HeldPlace(pc: map<nat, Pc>, t: nat, d: Pc)
    ensures Held(Place(pc, t, d)) == if Holds(d) then Held(pc)[t := d.item.id] else Held(pc) - {t}
  {}

  lemma LayoutKept(cfg: Config, s: Pool, t: nat, now: nat, ok: bool)
    requires t in s.pc && Act(cfg, s.g, t, s.pc[t], now, ok).Go?
    requires !s.g.isClosed && ChannelFits(cfg, s.g, s.pc[t]) && ExactlyOnePlace(LayoutOf(s.g, s.pc))
    ensures var s' := Move(s, t, Act(cfg, s.g, t, s.pc[t], now, ok)).value; ExactlyOnePlace(LayoutOf(s'.g, s'.pc))
  {
    var l, c := LayoutOf(s.g, s.pc), s.pc[t];
    var Go(h, d) := Act(cfg, s.g, t, c, now, ok);
    var m := LayoutOf(h, Place(s.pc, t, d));
    ActItems(cfg, s.g, t, c, now, ok);
    HeldPlace(s.pc, t, d);
    match ChangeOf(cfg, s.g, c, now, ok) {
      case Same => assert m.held == l.held;
      case Taken =>
        TakeFirst(l, t);
        assert m.queue == l.queue[1..];
      case Fresh => Generate(l, t);
      case Back =>
        PutBack(l, t);
        assert m.queue == l.queue + [l.held[t]];
      case Shut => CloseHeld(l, t);
    }
  }

  lemma NextKeepsInv(cfg: Config, s: Pool, t: nat, now: nat, ok: bool)
    requires Inv(cfg, s) && t in s.pc && Act(cfg, s.g, t, s.pc[t], now, ok).Go?
    ensures Inv(cfg, Move(s, t, Act(cfg, s.g, t, s.pc[t], now, ok)).value)
  {
    var Go(h, d) := Act(cfg, s.g, t, s.pc[t], now, ok);
    LocksKept(cfg, s, t, now, ok);
    RoomKept(cfg, s, t, now, ok);
    WindowKept(s.pc, t, d);
    LayoutKept(cfg, s, t, now, ok);
    ActCounts(cfg, s.g, t, s.pc[t], now, ok);
  }

  lemma StepKeepsInv(cfg: Config, s: Pool, a: Action)
    requires Inv(cfg, s) && Step(cfg, s, a).Some?
    ensures Inv(cfg, Step(cfg, s, a).value)
  {
    var after := Step(cfg, s, a).value;
    match a {
      case Enter(t) =>
        assert Window(after.pc) == Window(s.pc);
        assert Held(after.pc) == Held(s.pc);
      case Next(t, now, ok) => NextKeepsInv(cfg, s, t, now, ok);
      case Drain =>
        var l := LayoutOf(s.g, s.pc);
        CloseFirst(l);
        assert Ids(after.g.queue) == l.queue[1..];
      case _ =>
    }
  }

  lemma NewPoolInv(cfg: Config)
    ensures Inv(cfg, NEW)
  {}

  // ---------------------------------------------------------------- main results

  /** In every interleaving of any number of calls: each generated item is in exactly one place, `useCnt` is the
      number of calls inside the use window, the idle queue never exceeds the limit, or 10 without a limit, the channel
      is made at most once and no item is dropped. */
  lemma {:induction false} PoolIsSafe(cfg: Config, actions: seq<Action>)
    requires Run(cfg, actions).Some?
    ensures var s := Run(cfg, actions).value;
      && Inv(cfg, s)
      && ExactlyOnePlace(LayoutOf(s.g, s.pc)) && s.g.useCnt == |Window(s.pc)|
      && (cfg.max > 0 ==> |s.g.queue| <= cfg.max) && (cfg.max <= 0 ==> |s.g.queue| <= 10)
      && s.g.made <= 1 && s.g.dropped == {}
    decreases |actions|
  {
    if actions == [] {
      NewPoolInv(cfg);
    } else {
      PoolIsSafe(cfg, actions[..|actions| - 1]);
      StepKeepsInv(cfg, Run(cfg, actions[..|actions| - 1]).value, actions[|actions| - 1]);
    }
  }

  /** The channel is made under the first lock and filled under the second, by one call at a time. */
  lemma OneCallAtATime(cfg: Config, s: Pool, t: nat, u: nat)
    requires Inv(cfg, s) && t in s.pc && u in s.pc && t != u
    ensures !((s.pc[t].RunOnce? || s.pc[t].LeaveInit?) && (s.pc[u].RunOnce? || s.pc[u].LeaveInit?))
    ensures var c, d := s.pc[t], s.pc[u];
      !((c.TestRoom? || c.Send? || c.CloseFull? || c.LeavePush?) && (d.TestRoom? || d.Send? || d.CloseFull? || d.LeavePush?))
  {
    assert HasInitLock(s.pc[t]) <==> s.g.initLock == Some(t);
    assert HasPushLock(s.pc[t]) <==> s.g.pushLock == Some(t);
  }

  /** A send that passed the test for room never blocks. */
  lemma SendNeverBlocks(cfg: Config, s: Pool, t: nat, now: nat, ok: bool)
    requires Inv(cfg, s) && t in s.pc && s.pc[t].Send?
    ensures Step(cfg, s, Next(t, now, ok)).Some?
  {}

  /** No call is ever stuck: it can move, or it waits for a lock whose holder can move. */
  lemma NoDeadlock(cfg: Config, s: Pool, t: nat, now: nat, ok: bool)
    requires Inv(cfg, s) && t in s.pc
    ensures Step(cfg, s, Next(t, now, ok)).Some? || exists h | h in s.pc && h != t ::
              Step(cfg, s, Next(h, now, ok)).Some?
              && ((s.pc[t].WantInit? && s.g.initLock == Some(h)) || (s.pc[t].WantPush? && s.g.pushLock == Some(h)))
  {
    if Act(cfg, s.g, t, s.pc[t], now, ok).Wait? {
      assert s.pc[t] in s.pc.Values;
      var h := if s.pc[t].WantInit? then s.g.initLock.value else s.g.pushLock.value;
      assert h in s.pc && s.pc[h] in s.pc.Values;
      assert Step(cfg, s, Next(h, now, ok)).Some?;
    }
  }

  lemma StepOnlyAddsClosed(cfg: Config, s: Pool, a: Action)
    requires Step(cfg, s, a).Some?
    ensures s.g.closed <= Step(cfg, s, a).value.g.closed
  {
    if a.Next? {
      ActCounts(cfg, s.g, a.t, s.pc[a.t], a.now, a.ok);
    }
  }

  lemma {:induction false} RunOnlyAddsClosed(cfg: Config, actions: seq<Action>, n: nat)
    requires n <= |actions| && Run(cfg, actions).Some?
    ensures Run(cfg, actions[..n]).Some?
    ensures Run(cfg, actions[..n]).value.g.closed <= Run(cfg, actions).value.g.closed
    decreases |actions|
  {
    if n == |actions| {
      assert actions[..n] == actions;
    } else {
      var before := actions[..|actions| - 1];
      RunOnlyAddsClosed(cfg, before, n);
      assert before[..n] == actions[..n];
      StepOnlyAddsClosed(cfg, Run(cfg, before).value, actions[|actions| - 1]);
    }
  }

  /** Once closed, an item is never handed out, queued or closed again, whatever happens later in the run. */
  lemma ClosedItemsStayClosed(cfg: Config, actions: seq<Action>, n: nat, id: nat)
    requires n <= |actions| && Run(cfg, actions).Some?
    requires Run(cfg, actions[..n]).Some? && id in Run(cfg, actions[..n]).value.g.closed
    ensures var s := Run(cfg, actions).value;
      id in s.g.closed && id !in Ids(s.g.queue) && id !in Held(s.pc).Values
  {
    PoolIsSafe(cfg, actions);
    RunOnlyAddsClosed(cfg, actions, n);
    var s := Run(cfg, actions).value;
    ClosedIsFinal(LayoutOf(s.g, s.pc), id);
  }

  /** When `Close` has finished every item that was ever generated has been closed exactly once. */
  lemma CloseClosesEverything(cfg: Config, s: Pool)
    requires Inv(cfg, s) && s.g.drained
    ensures forall id: nat :: id in s.g.closed <==> id < s.g.generated
    ensures forall i, j | 0 <= i < j < |s.g.closed| :: s.g.closed[i] != s.g.closed[j]
  {
    var l := LayoutOf(s.g, s.pc);
    forall id: nat ensures id in s.g.closed <==> id < s.g.generated {
      if id < s.g.generated {
        assert Somewhere(l, id);
        var p :| At(l, id, p);
        assert p.ClosedAt?;
      }
      if id in s.g.closed {
        var k :| 0 <= k < |s.g.closed| && s.g.closed[k] == id;
        assert At(l, id, ClosedAt(k));
      }
    }
    forall i, j | 0 <= i < j < |s.g.closed| ensures s.g.closed[i] != s.g.closed[j] {
      assert At(l, s.g.closed[i], ClosedAt(i)) && At(l, s.g.closed[j], ClosedAt(j));
    }
  }
}
