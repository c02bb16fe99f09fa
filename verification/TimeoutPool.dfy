/** `TimeoutPoolExtension` for one caller at a time: the eviction loop and the outcome of each call, with
    every call shown to be a run of the protocol. */
module TimeoutPool {
  import opened IdleClock
  import opened PoolProtocol
  import opened Options

  datatype UseResult = Served(id: nat) | UseFailed(id: nat) | GenFailed | AlreadyClosed

  /** How many items at the front are evicted when the k-th look at the clock shows `clock(k)`. */
  function Evicted(queue: seq<Item>, timeout: int, clock: nat -> nat, k: nat): (n: nat)
    ensures n <= |queue|
    decreases |queue|
  {
    if queue == [] || !Expired(clock(k), queue[0].stamp, timeout) then 0
    else 1 + Evicted(queue[1..], timeout, clock, k + 1)
  }

  /** Exactly the maximal expired prefix. */
  lemma {:induction false} EvictedIsTheExpiredPrefix(queue: seq<Item>, timeout: int, clock: nat -> nat, k: nat)
    ensures var n := Evicted(queue, timeout, clock, k);
      && (forall i: nat | i < n :: Expired(clock(k + i), queue[i].stamp, timeout))
      && (n < |queue| ==> !Expired(clock(k + n), queue[n].stamp, timeout))
    decreases |queue|
  {
    if queue != [] && Expired(clock(k), queue[0].stamp, timeout) {
      EvictedIsTheExpiredPrefix(queue[1..], timeout, clock, k + 1);
      var n := Evicted(queue, timeout, clock, k);
      forall i: nat | i < n ensures Expired(clock(k + i), queue[i].stamp, timeout) {
        if i > 0 {
          assert Expired(clock(k + 1 + (i - 1)), queue[1..][i - 1].stamp, timeout);
        }
      }
    }
  }

  /** Call `t` running alone through the protocol: time and luck of each move. */
  function Solo(cfg: Config, g: Shared, t: nat, c: Pc, env: seq<(nat, bool)>): Outcome {
    if env == [] then Go(g, c)
    else
      var before := Solo(cfg, g, t, c, env[..|env| - 1]);
      var (now, ok) := env[|env| - 1];
      if before.Wait? then Wait else Act(cfg, before.g, t, before.c, now, ok)
  }

  lemma Follow(cfg: Config, g0: Shared, env: seq<(nat, bool)>, g: Shared, c: Pc, now: nat, ok: bool, h: Shared, d: Pc)
    returns (env': seq<(nat, bool)>)
    requires Solo(cfg, g0, 0, TestInit, env) == Go(g, c) && Act(cfg, g, 0, c, now, ok) == Go(h, d)
    ensures Solo(cfg, g0, 0, TestInit, env') == Go(h, d)
  {
    env' := env + [(now, ok)];
    assert env'[..|env|] == env;
  }

  /** A call that runs alone from a quiescent pool leaves a quiescent pool. */
  lemma {:induction false} SoloKeepsInv(cfg: Config, g0: Shared, env: seq<(nat, bool)>)
    requires Inv(cfg, PoolProtocol.Pool(g0, map[])) && !g0.isClosed && Solo(cfg, g0, 0, TestInit, env).Go?
    ensures var o := Solo(cfg, g0, 0, TestInit, env);
      Inv(cfg, PoolProtocol.Pool(o.g, Place(map[], 0, o.c)))
    decreases |env|
  {
    if env == [] {
      StepKeepsInv(cfg, PoolProtocol.Pool(g0, map[]), Enter(0));
    } else {
      SoloKeepsInv(cfg, g0, env[..|env| - 1]);
      var before := Solo(cfg, g0, 0, TestInit, env[..|env| - 1]);
      var (now, ok) := env[|env| - 1];
      SoloMove(cfg, before.g, before.c, now, ok);
    }
  }

  lemma SoloMove(cfg: Config, g: Shared, c: Pc, now: nat, ok: bool)
    requires Inv(cfg, PoolProtocol.Pool(g, Place(map[], 0, c))) && Act(cfg, g, 0, c, now, ok).Go?
    ensures var Go(h, d) := Act(cfg, g, 0, c, now, ok);
      Inv(cfg, PoolProtocol.Pool(h, Place(map[], 0, d)))
  {
    var s, o := PoolProtocol.Pool(g, Place(map[], 0, c)), Act(cfg, g, 0, c, now, ok);
    assert Place(s.pc, 0, o.c) == Place(map[], 0, o.c);
    assert Move(s, 0, o) == Some(PoolProtocol.Pool(o.g, Place(map[], 0, o.c)));
    NextKeepsInv(cfg, s, 0, now, ok);
  }

  // The stretches of a lone call, as runs of moves.

  function WithChannel(cfg: Config, g: Shared): Shared {
    if g.made == 0 then g.(cap := RealMax(cfg), queue := [], made := 1) else g
  }

  function AfterInit(cfg: Config, g: Shared): Shared {
    if g.init then g else WithChannel(cfg, g).(init := true)
  }

  lemma InitRun(cfg: Config, g: Shared) returns (env: seq<(nat, bool)>)
    requires g.initLock == None
    ensures Solo(cfg, g, 0, TestInit, env) == Go(AfterInit(cfg, g), Receive)
  {
    if g.init {
      env := Follow(cfg, g, [], g, TestInit, 0, true, g, Receive);
    } else {
      var locked := g.(initLock := Some(0));
      var made := WithChannel(cfg, g);
      env := Follow(cfg, g, [], g, TestInit, 0, true, g, WantInit);
      env := Follow(cfg, g, env, g, WantInit, 0, true, locked, RunOnce);
      env := Follow(cfg, g, env, locked, RunOnce, 0, true, made.(initLock := Some(0)), LeaveInit);
      env := Follow(cfg, g, env, made.(initLock := Some(0)), LeaveInit, 0, true, made, StoreInit);
      env := Follow(cfg, g, env, made, StoreInit, 0, true, made.(init := true), Receive);
    }
  }

  lemma ReceiveRun(cfg: Config, g0: Shared, env0: seq<(nat, bool)>, g: Shared, now: nat) returns (env: seq<(nat, bool)>)
    requires Solo(cfg, g0, 0, TestInit, env0) == Go(g, Receive) && g.queue != []
    ensures var item, rest := g.queue[0], g.(queue := g.queue[1..]);
      Solo(cfg, g0, 0, TestInit, env) ==
        if Expired(now, item.stamp, cfg.timeout) then Go(rest.(closed := g.closed + [item.id]), Receive) else Go(rest, CountIn(item))
  {
    var item, rest := g.queue[0], g.(queue := g.queue[1..]);
    env := Follow(cfg, g0, env0, g, Receive, now, true, rest, Check(item));
    var o := Act(cfg, rest, 0, Check(item), now, true);
    env := Follow(cfg, g0, env, rest, Check(item), now, true, o.g, o.c);
  }

  lemma CreateRun(cfg: Config, g0: Shared, env0: seq<(nat, bool)>, g: Shared, ok: bool) returns (env: seq<(nat, bool)>)
    requires Solo(cfg, g0, 0, TestInit, env0) == Go(g, Receive) && g.queue == []
    ensures Solo(cfg, g0, 0, TestInit, env) ==
      if ok then Go(g.(generated := g.generated + 1), CountIn(Item(g.generated, 0))) else Go(g.(accErr := g.accErr + 1), Out)
  {
    env := Follow(cfg, g0, env0, g, Receive, 0, ok, g, Create);
    if ok {
      env := Follow(cfg, g0, env, g, Create, 0, ok, g.(generated := g.generated + 1), CountIn(Item(g.generated, 0)));
    } else {
      env := Follow(cfg, g0, env, g, Create, 0, ok, g, CountErr);
      env := Follow(cfg, g0, env, g, CountErr, 0, ok, g.(accErr := g.accErr + 1), Out);
    }
  }

  lemma UsedRun(cfg: Config, g0: Shared, env0: seq<(nat, bool)>, g: Shared, item: Item, ok: bool)
    returns (env: seq<(nat, bool)>)
    requires Solo(cfg, g0, 0, TestInit, env0) == Go(g, CountIn(item))
    ensures Solo(cfg, g0, 0, TestInit, env) == Go(g, if ok then TestClosed(item) else CloseFailed(item))
  {
    var counted := g.(useCnt := g.useCnt + 1);
    env := Follow(cfg, g0, env0, g, CountIn(item), 0, ok, counted, Using(item));
    env := Follow(cfg, g0, env, counted, Using(item), 0, ok, counted, CountOut(item, ok));
    env := Follow(cfg, g0, env, counted, CountOut(item, ok), 0, ok, g, if ok then TestClosed(item) else CloseFailed(item));
  }

  /** The pool after the user function ran on `item` and the item was put back or closed. */
  function AfterUse(g: Shared, item: Item, now: nat, ok: bool): Shared {
    if !ok then g.(closed := g.closed + [item.id], accErr := g.accErr + 1)
    else if |g.queue| < g.cap then g.(queue := g.queue + [Item(item.id, Stamp(now))])
    else g.(closed := g.closed + [item.id])
  }

  lemma UseRun(cfg: Config, g0: Shared, env0: seq<(nat, bool)>, g: Shared, item: Item, now: nat, ok: bool)
    returns (env: seq<(nat, bool)>)
    requires Solo(cfg, g0, 0, TestInit, env0) == Go(g, CountIn(item)) && !g.isClosed && g.pushLock == None
    ensures Solo(cfg, g0, 0, TestInit, env) == Go(AfterUse(g, item, now, ok), Out)
  {
    env := UsedRun(cfg, g0, env0, g, item, ok);
    if ok {
      env := PushRun(cfg, g0, env, g, item, now);
    } else {
      var shut := g.(closed := g.closed + [item.id]);
      env := Follow(cfg, g0, env, g, CloseFailed(item), now, ok, shut, CountErr);
      env := Follow(cfg, g0, env, shut, CountErr, now, ok, AfterUse(g, item, now, ok), Out);
    }
  }

  lemma PushRun(cfg: Config, g0: Shared, env0: seq<(nat, bool)>, g: Shared, item: Item, now: nat)
    returns (env: seq<(nat, bool)>)
    requires Solo(cfg, g0, 0, TestInit, env0) == Go(g, TestClosed(item)) && !g.isClosed && g.pushLock == None
    ensures Solo(cfg, g0, 0, TestInit, env) == Go(AfterUse(g, item, now, true), Out)
  {
    var locked, h := g.(pushLock := Some(0)), AfterUse(g, item, now, true);
    env := LockRun(cfg, g0, env0, g, item, now);
    env := LockedRun(cfg, g0, env, locked, item, now);
    assert AfterUse(locked, item, now, true) == h.(pushLock := Some(0));
    env := Follow(cfg, g0, env, h.(pushLock := Some(0)), LeavePush, now, true, h, Out);
  }

  lemma LockRun(cfg: Config, g0: Shared, env0: seq<(nat, bool)>, g: Shared, item: Item, now: nat)
    returns (env: seq<(nat, bool)>)
    requires Solo(cfg, g0, 0, TestInit, env0) == Go(g, TestClosed(item)) && !g.isClosed && g.pushLock == None
    ensures Solo(cfg, g0, 0, TestInit, env) == Go(g.(pushLock := Some(0)), TestRoom(item))
  {
    env := Follow(cfg, g0, env0, g, TestClosed(item), now, true, g, WantPush(item));
    env := Follow(cfg, g0, env, g, WantPush(item), now, true, g.(pushLock := Some(0)), TestRoom(item));
  }

  lemma LockedRun(cfg: Config, g0: Shared, env0: seq<(nat, bool)>, g: Shared, item: Item, now: nat)
    returns (env: seq<(nat, bool)>)
    requires Solo(cfg, g0, 0, TestInit, env0) == Go(g, TestRoom(item))
    ensures Solo(cfg, g0, 0, TestInit, env) == Go(AfterUse(g, item, now, true), LeavePush)
  {
    var next := if |g.queue| < g.cap then Send(item) else CloseFull(item);
    env := Follow(cfg, g0, env0, g, TestRoom(item), now, true, g, next);
    env := Follow(cfg, g0, env, g, next, now, true, AfterUse(g, item, now, true), LeavePush);
  }

  /** The pool after the first `n` items were evicted. */
  function AfterEviction(g: Shared, n: nat): Shared
    requires n <= |g.queue|
  {
    g.(queue := g.queue[n..], closed := g.closed + Ids(g.queue[..n]))
  }

  lemma EvictOneMore(g: Shared, n: nat)
    requires n < |g.queue|
    ensures var h := AfterEviction(g, n);
      AfterEviction(g, n + 1) == h.(queue := h.queue[1..], closed := h.closed + [h.queue[0].id])
  {}

  /** The first item that is not expired, if any, and the pool once it is taken. */
  function Received(cfg: Config, g: Shared, clock: nat -> nat): Option<Item> {
    var n := Evicted(g.queue, cfg.timeout, clock, 0);
    if n < |g.queue| then Some(g.queue[n]) else None
  }

  function AfterReceive(cfg: Config, g: Shared, clock: nat -> nat): Shared {
    var n := Evicted(g.queue, cfg.timeout, clock, 0);
    var h := AfterEviction(g, n);
    if n < |g.queue| then h.(queue := h.queue[1..]) else h
  }

  /** The next item is either evicted too, or it is the one received. */
  lemma LookAtNext(cfg: Config, g: Shared, clock: nat -> nat, k: nat)
    requires k < |g.queue|
    requires Evicted(g.queue, cfg.timeout, clock, 0) == k + Evicted(g.queue[k..], cfg.timeout, clock, k)
    ensures var h, first := AfterEviction(g, k), g.queue[k];
      && h.queue != [] && h.queue[0] == first
      && if Expired(clock(k), first.stamp, cfg.timeout) then
           && AfterEviction(g, k + 1) == h.(queue := h.queue[1..], closed := h.closed + [first.id])
           && Evicted(g.queue, cfg.timeout, clock, 0) == k + 1 + Evicted(g.queue[k + 1..], cfg.timeout, clock, k + 1)
         else Received(cfg, g, clock) == Some(first) && AfterReceive(cfg, g, clock) == h.(queue := h.queue[1..])
  {
    EvictOneMore(g, k);
    assert g.queue[k..][0] == g.queue[k] && g.queue[k..][1..] == g.queue[k + 1..];
  }

  /** The item received or created, and the pool after that. */
  function Gotten(cfg: Config, g: Shared, clock: nat -> nat, genOk: bool): Option<Item> {
    var item := Received(cfg, g, clock);
    if item.Some? then item else if genOk then Some(Item(g.generated, 0)) else None
  }

  function AfterGet(cfg: Config, g: Shared, clock: nat -> nat, genOk: bool): Shared {
    var h := AfterReceive(cfg, g, clock);
    if Received(cfg, g, clock).Some? then h
    else if genOk then h.(generated := g.generated + 1)
    else h.(accErr := g.accErr + 1)
  }

  function AfterServe(cfg: Config, g: Shared, clock: nat -> nat, pushTime: nat, genOk: bool, useOk: bool): Shared {
    var ready := AfterInit(cfg, g);
    var item, h := Gotten(cfg, ready, clock, genOk), AfterGet(cfg, ready, clock, genOk);
    if item.None? then h else AfterUse(h, item.value, pushTime, useOk)
  }

  /** The receiving loop as a run: it evicts until an item is taken or the channel is empty. */
  lemma {:induction false} EvictRun(cfg: Config, g0: Shared, env0: seq<(nat, bool)>, g: Shared, clock: nat -> nat,
      k: nat)
    returns (env: seq<(nat, bool)>)
    requires k <= |g.queue| && Solo(cfg, g0, 0, TestInit, env0) == Go(AfterEviction(g, k), Receive)
    requires Evicted(g.queue, cfg.timeout, clock, 0) == k + Evicted(g.queue[k..], cfg.timeout, clock, k)
    ensures var item := Received(cfg, g, clock);
      Solo(cfg, g0, 0, TestInit, env) == Go(AfterReceive(cfg, g, clock), if item.Some? then CountIn(item.value) else Receive)
    decreases |g.queue| - k
  {
    if k == |g.queue| {
      env := env0;
    } else {
      LookAtNext(cfg, g, clock, k);
      env := ReceiveRun(cfg, g0, env0, AfterEviction(g, k), clock(k));
      if Expired(clock(k), g.queue[k].stamp, cfg.timeout) {
        env := EvictRun(cfg, g0, env, g, clock, k + 1);
      }
    }
  }

  lemma GetRun(cfg: Config, g0: Shared, env0: seq<(nat, bool)>, g: Shared, clock: nat -> nat, genOk: bool)
    returns (env: seq<(nat, bool)>)
    requires Solo(cfg, g0, 0, TestInit, env0) == Go(g, Receive)
    ensures var item := Gotten(cfg, g, clock, genOk);
      Solo(cfg, g0, 0, TestInit, env) == Go(AfterGet(cfg, g, clock, genOk), if item.Some? then CountIn(item.value) else Out)
  {
    assert AfterEviction(g, 0) == g && g.queue[0..] == g.queue;
    env := EvictRun(cfg, g0, env0, g, clock, 0);
    if Received(cfg, g, clock).None? {
      env := CreateRun(cfg, g0, env, AfterReceive(cfg, g, clock), genOk);
    }
  }

  /** One call alone is a run of the protocol from start to end, so it keeps the protocol's invariant. */
  lemma ServeIsARun(cfg: Config, g: Shared, clock: nat -> nat, pushTime: nat, genOk: bool, useOk: bool)
    requires Inv(cfg, PoolProtocol.Pool(g, map[])) && !g.isClosed
    ensures var h := AfterServe(cfg, g, clock, pushTime, genOk, useOk);
      IsSolo(cfg, g, h) && Inv(cfg, PoolProtocol.Pool(h, map[]))
  {
    var env := InitRun(cfg, g);
    var ready := AfterInit(cfg, g);
    env := GetRun(cfg, g, env, ready, clock, genOk);
    var item := Gotten(cfg, ready, clock, genOk);
    if item.Some? {
      env := UseRun(cfg, g, env, AfterGet(cfg, ready, clock, genOk), item.value, pushTime, useOk);
    }
    SoloKeepsInv(cfg, g, env);
    assert Place(map[], 0, Out) == map[];
  }

  /** `h` is what a call running alone on `g` can leave behind. */
  ghost predicate IsSolo(cfg: Config, g: Shared, h: Shared) {
    exists env :: Solo(cfg, g, 0, TestInit, env) == Go(h, Out)
  }

  /** What one call does to an open pool: the items evicted are the maximal expired prefix; the next item serves the
      call, or a new one if none is left; it goes back to the end of the queue with a fresh stamp, or is closed if the
      user function failed. */
  ghost predicate IsServed(cfg: Config, g: Shared, h: Shared, r: UseResult, clock: nat -> nat, pushTime: nat,
      genOk: bool, useOk: bool) {
    var n := Evicted(g.queue, cfg.timeout, clock, 0);
    var taken := n < |g.queue|;
    var rest := if taken then g.queue[n + 1..] else [];
    var id := if taken then g.queue[n].id else g.generated;
    var evicted := g.closed + Ids(g.queue[..n]);
    && (if !taken && !genOk then r == GenFailed && h.queue == [] && h.closed == evicted
        else if useOk then r == Served(id) && h.queue == rest + [Item(id, Stamp(pushTime))] && h.closed == evicted
        else r == UseFailed(id) && h.queue == rest && h.closed == evicted + [id])
    && h.generated == g.generated + (if !taken && genOk then 1 else 0)
    && h.accErr == g.accErr + (if r.Served? then 0 else 1)
    && h.useCnt == g.useCnt && h.isClosed == g.isClosed && h.drained == g.drained
    && h.init && h.made == 1 && h.cap == if cfg.max > 0 then cfg.max else 10
  }

  function ResultOf(cfg: Config, g: Shared, clock: nat -> nat, genOk: bool, useOk: bool): UseResult {
    var item := Gotten(cfg, AfterInit(cfg, g), clock, genOk);
    if item.None? then GenFailed else if useOk then Served(item.value.id) else UseFailed(item.value.id)
  }

  lemma ServeMeans(cfg: Config, g: Shared, clock: nat -> nat, pushTime: nat, genOk: bool, useOk: bool)
    requires ChannelFits(cfg, g, Out) && !g.isClosed
    ensures IsServed(cfg, g, AfterServe(cfg, g, clock, pushTime, genOk, useOk), ResultOf(cfg, g, clock, genOk, useOk),
                     clock, pushTime, genOk, useOk)
  {
    assert AfterInit(cfg, g).queue == g.queue;
    var n := Evicted(g.queue, cfg.timeout, clock, 0);
    assert n < |g.queue| ==> g.queue[n..][1..] == g.queue[n + 1..] && |g.queue[n + 1..]| < RealMax(cfg);
  }

  /** Every idle item is closed, in order; the counters and the channel's capacity stay. */
  function AfterClose(g: Shared): Shared {
    g.(isClosed := true, drained := true, queue := [], closed := g.closed + Ids(g.queue))
  }

  /** No item is idle any more; those that were are now on the record of closed items, in order. */
  ghost predicate IsShut(g: Shared, h: Shared) {
    && h.isClosed && h.drained && h.queue == []
    && |h.closed| == |g.closed| + |g.queue| && g.closed <= h.closed
    && (forall i | 0 <= i < |g.queue| :: h.closed[|g.closed| + i] == g.queue[i].id)
    && h.useCnt == g.useCnt && h.accErr == g.accErr && h.generated == g.generated && h.cap == g.cap && h.made == g.made
  }

  /** Closing an open pool between calls keeps the protocol's invariant. */
  lemma CloseKeepsInv(cfg: Config, g: Shared)
    requires Inv(cfg, PoolProtocol.Pool(g, map[])) && !g.isClosed
    ensures Inv(cfg, PoolProtocol.Pool(AfterClose(g), map[]))
  {
    var shut := PoolProtocol.Pool(g.(isClosed := true), map[]);
    StepKeepsInv(cfg, PoolProtocol.Pool(g, map[]), BeginClose);
    DrainAll(cfg, shut.g);
    assert AfterClose(shut.g) == AfterClose(g);
  }

  lemma {:induction false} DrainAll(cfg: Config, g: Shared)
    requires Inv(cfg, PoolProtocol.Pool(g, map[])) && g.isClosed && !g.drained
    ensures Inv(cfg, PoolProtocol.Pool(AfterClose(g), map[]))
    decreases |g.queue|
  {
    var s := PoolProtocol.Pool(g, map[]);
    if g.queue == [] {
      StepKeepsInv(cfg, s, FinishClose);
      assert g.closed + Ids([]) == g.closed;
      assert AfterClose(g) == g.(drained := true);
    } else {
      var h := g.(queue := g.queue[1..], closed := g.closed + [g.queue[0].id]);
      StepKeepsInv(cfg, s, Drain);
      DrainAll(cfg, h);
      assert Ids(g.queue) == [g.queue[0].id] + Ids(g.queue[1..]);
      assert AfterClose(h) == AfterClose(g);
    }
  }

  class Pool {
    const cfg: Config
    var init: bool
    var made: nat
    var cap: nat
    var queue: seq<Item>
    var useCnt: int
    var accErr: int
    var isClosed: bool
    var drained: bool
    var generated: nat
    var closed: seq<nat>

    function View(): Shared
      reads this
    {
      Shared(init, None, made, cap, queue, None, useCnt, accErr, isClosed, drained, generated, closed, {})
    }

    ghost predicate Valid()
      reads this
    {
      Inv(cfg, PoolProtocol.Pool(View(), map[]))
    }

    constructor (max: int, timeout: int)
      ensures Valid() && cfg == Config(max, timeout) && View() == NEW.g
    {
      cfg := Config(max, timeout);
      init, made, cap, queue, useCnt, accErr := false, 0, 0, [], 0, 0;
      isClosed, drained, generated, closed := false, false, 0, [];
    }

    /** The first call makes the channel. */
    method EnsureInit()
      requires !isClosed
      modifies `init, `made, `cap, `queue
      ensures View() == AfterInit(cfg, old(View()))
      ensures !old(init) && old(made) == 0 ==> made == 1 && queue == [] && cap == if cfg.max > 0 then cfg.max else 10
    {
      if !init {
        if made == 0 {
          cap, queue, made := RealMax(cfg), [], 1;
        }
        init := true;
      }
    }

    /** The receiving side of the loop: closes expired items until one is taken or the channel is empty.
        The k-th expiry test sees `clock(k)`. */
    method TryReceive(clock: nat -> nat) returns (item: Option<Item>)
      modifies `queue, `closed
      ensures item == Received(cfg, old(View()), clock) && View() == AfterReceive(cfg, old(View()), clock)
    {
      ghost var g := View();
      assert g.queue[..0] == [] && Ids([]) == [] && g.queue[0..] == g.queue;
      var k := 0;
      while queue != []
        invariant k <= |g.queue| && queue == g.queue[k..] && closed == g.closed + Ids(g.queue[..k])
        invariant Evicted(g.queue, cfg.timeout, clock, 0) == k + Evicted(g.queue[k..], cfg.timeout, clock, k)
        decreases |queue|
      {
        LookAtNext(cfg, g, clock, k);
        var first := queue[0];
        queue := queue[1..];
        if cfg.timeout > 0 && first.stamp != 0 && Stamp(clock(k)) - first.stamp > cfg.timeout {
          closed := closed + [first.id];
          k := k + 1;
        } else {
          item := Some(first);
          return;
        }
      }
      item := None;
    }

    /** The whole loop: an item from the channel, or a new one when the channel is empty. */
    method Get(clock: nat -> nat, genOk: bool) returns (item: Option<Item>)
      modifies `queue, `closed, `generated, `accErr
      ensures item == Gotten(cfg, old(View()), clock, genOk) && View() == AfterGet(cfg, old(View()), clock, genOk)
    {
      item := TryReceive(clock);
      if item.None? {
        if genOk {
          item := Some(Item(generated, 0));
          generated := generated + 1;
        } else {
          accErr := accErr + 1;
        }
      }
    }

    /** Runs the user function on the item and puts the item back, or closes it. */
    method RunWith(item: Item, pushTime: nat, useOk: bool)
      requires !isClosed
      modifies `queue, `closed, `useCnt, `accErr
      ensures View() == AfterUse(old(View()), item, pushTime, useOk)
    {
      useCnt := useCnt + 1;
      // The user function runs here.
      useCnt := useCnt - 1;
      if !useOk {
        closed := closed + [item.id];
        accErr := accErr + 1;
        return;
      }
      if |queue| < cap {
        queue := queue + [Item(item.id, Stamp(pushTime))];
      } else {
        closed := closed + [item.id];
      }
    }

    /** The part of `Use` behind the two early exits. */
    method Serve(clock: nat -> nat, pushTime: nat, genOk: bool, useOk: bool) returns (r: UseResult)
      requires !isClosed
      modifies this
      ensures View() == AfterServe(cfg, old(View()), clock, pushTime, genOk, useOk)
      ensures r == ResultOf(cfg, old(View()), clock, genOk, useOk)
    {
      EnsureInit();
      var item := Get(clock, genOk);
      if item.None? {
        return GenFailed;
      }
      RunWith(item.value, pushTime, useOk);
      r := if useOk then Served(item.value.id) else UseFailed(item.value.id);
    }

    /** One call of `Use`. It evicts exactly the maximal expired prefix, takes the next item or a new one, and
        a caller alone always finds room to put it back; the call is a run of the protocol. */
    method Use(ctxDone: bool, clock: nat -> nat, pushTime: nat, genOk: bool, useOk: bool) returns (r: UseResult)
      requires Valid()
      modifies this
      ensures Valid()
      ensures old(isClosed) ==> r == AlreadyClosed && View() == old(View())
      ensures !old(isClosed) && ctxDone ==>
        r == AlreadyClosed && View() == AfterClose(old(View())) && IsShut(old(View()), View())
      ensures !old(isClosed) && !ctxDone ==>
        && IsServed(cfg, old(View()), View(), r, clock, pushTime, genOk, useOk)
        && IsSolo(cfg, old(View()), View())
    {
      if isClosed {
        return AlreadyClosed;
      }
      if ctxDone {
        var _ := Close();
        return AlreadyClosed;
      }
      ServeIsARun(cfg, View(), clock, pushTime, genOk, useOk);
      ServeMeans(cfg, View(), clock, pushTime, genOk, useOk);
      r := Serve(clock, pushTime, genOk, useOk);
    }

    /** Closes every idle item, once; a second call reports an error. */
    method Close() returns (ok: bool)
      requires Valid()
      modifies `isClosed, `drained, `queue, `closed
      ensures Valid()
      ensures ok == !old(isClosed)
      ensures !ok ==> View() == old(View())
      ensures ok ==> View() == AfterClose(old(View())) && IsShut(old(View()), View())
    {
      if isClosed {
        return false;
      }
      ghost var g, k := View(), 0;
      CloseKeepsInv(cfg, g);
      isClosed := true;
      while queue != []
        invariant isClosed && k <= |g.queue| && queue == g.queue[k..] && closed == g.closed + Ids(g.queue[..k])
        decreases |queue|
      {
        EvictOneMore(g, k);
        closed := closed + [queue[0].id];
        queue := queue[1..];
        k := k + 1;
      }
      assert g.queue[..k] == g.queue;
      drained := true;
      assert View() == AfterClose(g);
      assert forall i | 0 <= i < |g.queue| :: Ids(g.queue)[i] == g.queue[i].id;
      ok := true;
    }
  }
}
