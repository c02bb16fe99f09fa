/** `SimplePoolExtension.Use`: the protocol without expiry, and its exact relation to the timeout pool. */
module SimplePool {
  import opened Options
  import opened IdleClock
  import opened PoolProtocol

  /** The same moves, but a received item is taken without a test and sent back without a stamp. */
  function SimpleAct(cfg: Config, g: Shared, t: nat, c: Pc, ok: bool): Outcome {
    match c
    case Receive => if g.queue == [] then Go(g, Create) else Go(g.(queue := g.queue[1..]), CountIn(g.queue[0]))
    case Check(_) => Wait
    case Send(item) => if |g.queue| < g.cap then Go(g.(queue := g.queue + [Item(item.id, 0)]), LeavePush) else Wait
    case _ => Act(cfg, g, t, c, 0, ok)
  }

  function SimpleStep(cfg: Config, s: Pool, a: Action): Option<Pool> {
    match a
    case Next(t, _, ok) => if t in s.pc then Move(s, t, SimpleAct(cfg, s.g, t, s.pc[t], ok)) else None
    case _ => Step(cfg, s, a)
  }

  function SimpleRun(cfg: Config, actions: seq<Action>): Option<Pool> {
    if actions == [] then Some(NEW)
    else
      var before := SimpleRun(cfg, actions[..|actions| - 1]);
      if before.None? then None else SimpleStep(cfg, before.value, actions[|actions| - 1])
  }

  /** Each step of the simple pool is one or two steps of a timeout pool that has no timeout. */
  lemma SimpleStepIsTimeoutSteps(cfg: Config, s: Pool, a: Action)
    requires cfg.timeout <= 0 && SimpleStep(cfg, s, a).Some?
    ensures var n := if a.Next? then Next(a.t, 0, a.ok) else a;
      var first := Step(cfg, s, n);
      && first.Some?
      && (SimpleStep(cfg, s, a) == first || SimpleStep(cfg, s, a) == Step(cfg, first.value, n))
  {
    if a.Next? && s.pc[a.t].Receive? && s.g.queue != [] {
      var mid := Step(cfg, s, Next(a.t, 0, a.ok)).value;
      assert Step(cfg, mid, Next(a.t, 0, a.ok)).value.pc == SimpleStep(cfg, s, a).value.pc;
    } else {
      assert Stamp(0) == 0;
    }
  }

  /** Hence the simple pool is as safe in every interleaving, within the same limit. */
  lemma {:induction false} SimplePoolIsSafe(max: int, actions: seq<Action>)
    requires SimpleRun(Config(max, 0), actions).Some?
    ensures var s := SimpleRun(Config(max, 0), actions).value;
      && Inv(Config(max, 0), s)
      && (max > 0 ==> |s.g.queue| <= max) && (max <= 0 ==> |s.g.queue| <= 10)
    decreases |actions|
  {
    var cfg := Config(max, 0);
    if actions == [] {
      NewPoolInv(cfg);
    } else {
      SimplePoolIsSafe(max, actions[..|actions| - 1]);
      var s, a := SimpleRun(cfg, actions[..|actions| - 1]).value, actions[|actions| - 1];
      var n := if a.Next? then Next(a.t, 0, a.ok) else a;
      SimpleStepIsTimeoutSteps(cfg, s, a);
      StepKeepsInv(cfg, s, n);
      if Step(cfg, Step(cfg, s, n).value, n).Some? {
        StepKeepsInv(cfg, Step(cfg, s, n).value, n);
      }
    }
  }

  /** Forgetting the stamps; an item that passed the expiry test, or is about to, is simply taken. */
  function Bare(item: Item): Item {
    Item(item.id, 0)
  }

  function BarePc(c: Pc): Pc {
    match c
    case Check(item) => CountIn(Bare(item))
    case CountIn(item) => CountIn(Bare(item))
    case Using(item) => Using(Bare(item))
    case CountOut(item, ok) => CountOut(Bare(item), ok)
    case CloseFailed(item) => CloseFailed(Bare(item))
    case TestClosed(item) => TestClosed(Bare(item))
    case WantPush(item) => WantPush(Bare(item))
    case TestRoom(item) => TestRoom(Bare(item))
    case Send(item) => Send(Bare(item))
    case CloseFull(item) => CloseFull(Bare(item))
    case _ => c
  }

  function BareQueue(queue: seq<Item>): seq<Item> {
    seq(|queue|, i requires 0 <= i < |queue| => Bare(queue[i]))
  }

  function BareShared(g: Shared): Shared {
    g.(queue := BareQueue(g.queue))
  }

  function BarePool(s: Pool): Pool {
    Pool(BareShared(s.g), BarePcs(s.pc))
  }

  function BareOutcome(o: Outcome): Outcome {
    if o.Go? then Go(BareShared(o.g), BarePc(o.c)) else Wait
  }

  lemma BareEmptyHanded(cfg: Config, g: Shared, t: nat, c: Pc, now: nat, ok: bool)
    requires !Holds(c) && !c.Receive?
    ensures SimpleAct(cfg, BareShared(g), t, c, ok) == BareOutcome(Act(cfg, g, t, c, now, ok))
  {
    if c.RunOnce? && g.made == 0 {
      assert BareQueue([]) == [];
    }
  }

  lemma BareHolding(cfg: Config, g: Shared, t: nat, c: Pc, now: nat, ok: bool)
    requires Holds(c) && !c.Check? && !c.Send?
    ensures SimpleAct(cfg, BareShared(g), t, BarePc(c), ok) == BareOutcome(Act(cfg, g, t, c, now, ok))
  {}

  lemma BareAct(cfg: Config, g: Shared, t: nat, c: Pc, now: nat, ok: bool)
    requires cfg.timeout <= 0
    ensures if c.Check? then Act(cfg, g, t, c, now, ok) == Go(g, CountIn(c.item))
      else SimpleAct(cfg, BareShared(g), t, BarePc(c), ok) == BareOutcome(Act(cfg, g, t, c, now, ok))
  {
    var b := BareShared(g);
    if c.Check? {
    } else if c.Receive? {
      if g.queue != [] {
        assert BareQueue(g.queue[1..]) == b.queue[1..];
      }
    } else if c.Send? {
      assert BareQueue(g.queue + [Item(c.item.id, Stamp(now))]) == b.queue + [Bare(c.item)];
    } else if Holds(c) {
      BareHolding(cfg, g, t, c, now, ok);
    } else {
      BareEmptyHanded(cfg, g, t, c, now, ok);
    }
  }

  function BarePcs(pc: map<nat, Pc>): map<nat, Pc> {
    map t | t in pc :: BarePc(pc[t])
  }

  lemma BarePlace(pc: map<nat, Pc>, t: nat, c: Pc)
    ensures BarePcs(Place(pc, t, c)) == Place(BarePcs(pc), t, BarePc(c))
  {}

  /** Without a timeout the timeout pool is the simple pool: each of its steps is the same step of the simple
      pool, except that passing the expiry test is no step at all. */
  lemma NoTimeoutIsTheSimplePool(cfg: Config, s: Pool, a: Action)
    requires cfg.timeout <= 0 && Step(cfg, s, a).Some?
    ensures var s' := Step(cfg, s, a).value;
      if a.Next? && s.pc[a.t].Check? then BarePool(s') == BarePool(s)
      else SimpleStep(cfg, BarePool(s), a) == Some(BarePool(s'))
  {
    var s' := Step(cfg, s, a).value;
    match a {
      case Next(t, now, ok) =>
        BareAct(cfg, s.g, t, s.pc[t], now, ok);
        BarePlace(s.pc, t, Act(cfg, s.g, t, s.pc[t], now, ok).c);
        if s.pc[t].Check? {
          assert BarePcs(s.pc)[t := BarePc(s.pc[t])] == BarePcs(s.pc);
        }
      case Enter(t) =>
        assert BarePool(s').pc == BarePool(s).pc[t := TestInit];
      case Drain =>
        assert BareQueue(s'.g.queue) == BareQueue(s.g.queue)[1..];
      case _ =>
    }
  }
}
