/** The limit of the pools is reached: as many calls as the limit allows overlap, and all their items stay idle. */
module PoolLimit {
  import opened Options
  import opened PoolProtocol
  import opened SimplePool

  /** What one action leads to from a state in `reach` is in `reach` too. */
  ghost predicate IsClosed(cfg: Config, reach: iset<Pool>) {
    forall s, a | s in reach && Step(cfg, s, a).Some? :: Step(cfg, s, a).value in reach
  }

  /** Call `t` moves on, whatever the other calls `pc` are waiting for. */
  lemma MoveOn(cfg: Config, reach: iset<Pool>, pc: map<nat, Pc>, t: nat, g: Shared, c: Pc)
    requires IsClosed(cfg, reach) && t !in pc && Pool(g, pc[t := c]) in reach && Act(cfg, g, t, c, 0, true).Go?
    ensures var Go(h, d) := Act(cfg, g, t, c, 0, true); Pool(h, Place(pc, t, d)) in reach
  {
    var Go(h, d) := Act(cfg, g, t, c, 0, true);
    assert Step(cfg, Pool(g, pc[t := c]), Next(t, 0, true)) == Some(Pool(h, Place(pc[t := c], t, d)));
    assert Place(pc[t := c], t, d) == Place(pc, t, d);
  }

  /** `n` calls have made an item each; the first `k` of them have put it back and returned. */
  function Overlap(cfg: Config, n: nat, k: nat): Pool
    requires k <= n
  {
    Pool(
      Shared(n > 0, None, if n > 0 then 1 else 0, if n > 0 then RealMax(cfg) else 0,
             seq(k, i requires 0 <= i < k => Item(i, 0)), None, n - k, 0, false, false, n, [], {}),
      map t: nat | k <= t < n :: Using(Item(t, 0)))
  }

  lemma {:induction false} AllEnter(cfg: Config, reach: iset<Pool>, n: nat)
    requires IsClosed(cfg, reach) && NEW in reach
    ensures Overlap(cfg, n, 0) in reach
  {
    if n == 0 {
      assert NEW == Overlap(cfg, 0, 0);
    } else {
      AllEnter(cfg, reach, n - 1);
      OneEnters(cfg, reach, n - 1);
    }
  }

  lemma OneEnters(cfg: Config, reach: iset<Pool>, t: nat)
    requires IsClosed(cfg, reach) && Overlap(cfg, t, 0) in reach
    ensures Overlap(cfg, t + 1, 0) in reach
  {
    var Pool(g, pc) := Overlap(cfg, t, 0);
    assert Step(cfg, Pool(g, pc), Enter(t)) == Some(Pool(g, pc[t := TestInit]));
    Initialise(cfg, reach, pc, t, g);
    TakeNew(cfg, reach, pc, t, g.(init := true, made := 1, cap := RealMax(cfg)));
    assert pc[t := Using(Item(t, 0))] == Overlap(cfg, t + 1, 0).pc;
  }

  lemma Initialise(cfg: Config, reach: iset<Pool>, pc: map<nat, Pc>, t: nat, g: Shared)
    requires IsClosed(cfg, reach) && t !in pc && Pool(g, pc[t := TestInit]) in reach
    requires g.initLock == None && if g.init then g.made == 1 && g.cap == RealMax(cfg) else g.made == 0 && g.queue == []
    ensures Pool(g.(init := true, made := 1, cap := RealMax(cfg)), pc[t := Receive]) in reach
  {
    MoveOn(cfg, reach, pc, t, g, TestInit);
    if !g.init {
      var made := g.(made := 1, cap := RealMax(cfg));
      MoveOn(cfg, reach, pc, t, g, WantInit);
      MoveOn(cfg, reach, pc, t, g.(initLock := Some(t)), RunOnce);
      MoveOn(cfg, reach, pc, t, made.(initLock := Some(t)), LeaveInit);
      MoveOn(cfg, reach, pc, t, made, StoreInit);
    }
  }

  lemma TakeNew(cfg: Config, reach: iset<Pool>, pc: map<nat, Pc>, t: nat, g: Shared)
    requires IsClosed(cfg, reach) && t !in pc && Pool(g, pc[t := Receive]) in reach && g.queue == []
    ensures var item := Item(g.generated, 0);
      Pool(g.(generated := g.generated + 1, useCnt := g.useCnt + 1), pc[t := Using(item)]) in reach
  {
    MoveOn(cfg, reach, pc, t, g, Receive);
    MoveOn(cfg, reach, pc, t, g, Create);
    MoveOn(cfg, reach, pc, t, g.(generated := g.generated + 1), CountIn(Item(g.generated, 0)));
  }

  lemma {:induction false} AllReturn(cfg: Config, reach: iset<Pool>, n: nat, k: nat)
    requires k <= n <= RealMax(cfg) && IsClosed(cfg, reach) && NEW in reach
    ensures Overlap(cfg, n, k) in reach
    decreases k
  {
    if k == 0 {
      AllEnter(cfg, reach, n);
    } else {
      AllReturn(cfg, reach, n, k - 1);
      OneReturns(cfg, reach, n, k - 1);
    }
  }

  lemma OneReturns(cfg: Config, reach: iset<Pool>, n: nat, k: nat)
    requires k < n <= RealMax(cfg) && IsClosed(cfg, reach) && Overlap(cfg, n, k) in reach
    ensures Overlap(cfg, n, k + 1) in reach
  {
    var g, item := Overlap(cfg, n, k).g, Item(k, 0);
    var pc := map t: nat | k < t < n :: Using(Item(t, 0));
    assert pc[k := Using(item)] == Overlap(cfg, n, k).pc;
    MoveOn(cfg, reach, pc, k, g, Using(item));
    MoveOn(cfg, reach, pc, k, g, CountOut(item, true));
    PutItemBack(cfg, reach, pc, k, g.(useCnt := g.useCnt - 1), item);
    assert g.queue + [item] == Overlap(cfg, n, k + 1).g.queue;
    assert pc == Overlap(cfg, n, k + 1).pc;
  }

  lemma PutItemBack(cfg: Config, reach: iset<Pool>, pc: map<nat, Pc>, t: nat, g: Shared, item: Item)
    requires IsClosed(cfg, reach) && t !in pc && Pool(g, pc[t := TestClosed(item)]) in reach
    requires !g.isClosed && g.pushLock == None && |g.queue| < g.cap && item.stamp == 0
    ensures Pool(g.(queue := g.queue + [item]), pc) in reach
  {
    var locked, full := g.(pushLock := Some(t)), g.(queue := g.queue + [item]);
    MoveOn(cfg, reach, pc, t, g, TestClosed(item));
    MoveOn(cfg, reach, pc, t, g, WantPush(item));
    MoveOn(cfg, reach, pc, t, locked, TestRoom(item));
    MoveOn(cfg, reach, pc, t, locked, Send(item));
    MoveOn(cfg, reach, pc, t, full.(pushLock := Some(t)), LeavePush);
    assert pc - {t} == pc;
  }

  /** The states that runs reach. */
  ghost function Reached(cfg: Config): iset<Pool> {
    iset s: Pool | exists run :: Run(cfg, run) == Some(s)
  }

  lemma RunsGoOn(cfg: Config)
    ensures IsClosed(cfg, Reached(cfg)) && NEW in Reached(cfg)
  {
    assert Run(cfg, []) == Some(NEW);
    forall s, a | s in Reached(cfg) && Step(cfg, s, a).Some? ensures Step(cfg, s, a).value in Reached(cfg) {
      var run :| Run(cfg, run) == Some(s);
      assert (run + [a])[..|run|] == run;
      assert Run(cfg, run + [a]) == Step(cfg, s, a);
    }
  }

  /** For every configuration some run leaves as many idle items as `PoolIsSafe` allows, with no call in flight. */
  lemma LimitIsReached(cfg: Config) returns (run: seq<Action>)
    ensures Run(cfg, run).Some? && Run(cfg, run).value.pc == map[] && Run(cfg, run).value.g.closed == []
    ensures |Run(cfg, run).value.g.queue| == if cfg.max > 0 then cfg.max else 10
  {
    RunsGoOn(cfg);
    AllReturn(cfg, Reached(cfg), RealMax(cfg), RealMax(cfg));
    run :| Run(cfg, run) == Some(Overlap(cfg, RealMax(cfg), RealMax(cfg)));
  }

  /** Every run of a timeout pool without a timeout is, with the stamps forgotten, a run of the simple pool. */
  lemma {:induction false} BareRun(cfg: Config, run: seq<Action>) returns (bare: seq<Action>)
    requires cfg.timeout <= 0 && Run(cfg, run).Some?
    ensures SimpleRun(cfg, bare) == Some(BarePool(Run(cfg, run).value))
    decreases |run|
  {
    if run == [] {
      bare := [];
      assert BareQueue([]) == [] && BarePcs(map[]) == map[];
    } else {
      var a, s := run[|run| - 1], Run(cfg, run[..|run| - 1]).value;
      bare := BareRun(cfg, run[..|run| - 1]);
      NoTimeoutIsTheSimplePool(cfg, s, a);
      if !(a.Next? && s.pc[a.t].Check?) {
        assert (bare + [a])[..|bare|] == bare;
        bare := bare + [a];
      }
    }
  }

  lemma SimpleLimitIsReached(max: int) returns (run: seq<Action>)
    ensures SimpleRun(Config(max, 0), run).Some? && SimpleRun(Config(max, 0), run).value.pc == map[]
    ensures |SimpleRun(Config(max, 0), run).value.g.queue| == if max > 0 then max else 10
  {
    var timed := LimitIsReached(Config(max, 0));
    run := BareRun(Config(max, 0), timed);
  }
}
