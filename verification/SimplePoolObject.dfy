/** `SimplePoolExtension` for one caller at a time. Its calls meet the specification of the timeout pool with the
    timeout off and the clock at rest. */
module SimplePoolObject {
  import opened Options
  import opened ItemLayout
  import opened PoolProtocol
  import opened TimeoutPool

  class Pool {
    const max: int
    var init: bool
    var made: nat
    var cap: nat
    var queue: seq<nat>
    var useCnt: int
    var accErr: int
    var isClosed: bool
    var drained: bool
    var generated: nat
    var closed: seq<nat>

    function View(): Shared
      reads this
    {
      Shared(init, None, made, cap, Unstamped(queue), None, useCnt, accErr, isClosed, drained, generated, closed, {})
    }

    /** Between calls the pool is in a state that the protocol allows. */
    ghost predicate Valid()
      reads this
    {
      Inv(Config(max, 0), PoolProtocol.Pool(View(), map[]))
    }

    constructor (max: int)
      ensures Valid() && this.max == max && View() == NEW.g
    {
      this.max := max;
      init, made, cap, queue, useCnt, accErr := false, 0, 0, [], 0, 0;
      isClosed, drained, generated, closed := false, false, 0, [];
    }

    method EnsureInit()
      requires !isClosed
      modifies `init, `made, `cap, `queue
      ensures View() == AfterInit(Config(max, 0), old(View()))
    {
      if !init {
        if made == 0 {
          cap, queue, made := RealMax(Config(max, 0)), [], 1;
        }
        init := true;
      }
    }

    /** An item from the channel, or a new one when it is empty. */
    method Get(genOk: bool) returns (item: Option<nat>)
      modifies `queue, `generated, `accErr
      ensures var g := old(View());
        && View() == AfterGet(Config(max, 0), g, NOW, genOk)
        && Gotten(Config(max, 0), g, NOW, genOk) == if item.None? then None else Some(Item(item.value, 0))
    {
      if queue != [] {
        assert Unstamped(queue)[1..] == Unstamped(queue[1..]);
        item, queue := Some(queue[0]), queue[1..];
      } else if genOk {
        item, generated := Some(generated), generated + 1;
      } else {
        item, accErr := None, accErr + 1;
      }
    }

    /** Runs the user function on the item and puts the item back, or closes it. */
    method RunWith(item: nat, useOk: bool)
      modifies `queue, `closed, `useCnt, `accErr
      ensures View() == AfterUse(old(View()), Item(item, 0), 0, useOk)
    {
      useCnt := useCnt + 1;
      // The user function runs here.
      useCnt := useCnt - 1;
      if !useOk {
        closed := closed + [item];
        accErr := accErr + 1;
        return;
      }
      if |queue| < cap {
        assert Unstamped(queue + [item]) == Unstamped(queue) + [Item(item, 0)];
        queue := queue + [item];
      } else {
        closed := closed + [item];
      }
    }

    /** The part of `Use` behind the two early exits. */
    method Serve(genOk: bool, useOk: bool) returns (r: UseResult)
      requires !isClosed
      modifies this
      ensures View() == AfterServe(Config(max, 0), old(View()), NOW, 0, genOk, useOk)
      ensures r == ResultOf(Config(max, 0), old(View()), NOW, genOk, useOk)
    {
      EnsureInit();
      var item := Get(genOk);
      if item.None? {
        return GenFailed;
      }
      RunWith(item.value, useOk);
      r := if useOk then Served(item.value) else UseFailed(item.value);
    }

    method Use(ctxDone: bool, genOk: bool, useOk: bool) returns (r: UseResult)
      requires Valid()
      modifies this
      ensures Valid()
      ensures old(isClosed) ==> r == AlreadyClosed && View() == old(View())
      ensures !old(isClosed) && ctxDone ==>
        r == AlreadyClosed && View() == AfterClose(old(View())) && IsShut(old(View()), View())
      ensures !old(isClosed) && !ctxDone ==>
        && IsServed(Config(max, 0), old(View()), View(), r, NOW, 0, genOk, useOk)
        && IsSolo(Config(max, 0), old(View()), View())
    {
      if isClosed {
        return AlreadyClosed;
      }
      if ctxDone {
        var _ := Close();
        return AlreadyClosed;
      }
      ServeIsARun(Config(max, 0), View(), NOW, 0, genOk, useOk);
      ServeMeans(Config(max, 0), View(), NOW, 0, genOk, useOk);
      r := Serve(genOk, useOk);
    }

    method Close() returns (ok: bool)
      requires Valid()
      modifies `isClosed, `drained, `queue, `closed
      ensures Valid()
      ensures ok == !old(isClosed)
      ensures !ok ==> View() == old(View())
      ensures ok ==> View() == AfterClose(old(View())) && IsShut(old(View()), View())
    {
      if isClosed {
        return false;
      }
      ghost var g, items := View(), queue;
      CloseKeepsInv(Config(max, 0), g);
      isClosed := true;
      while queue != []
        invariant isClosed && closed + queue == g.closed + items
        decreases |queue|
      {
        closed := closed + [queue[0]];
        queue := queue[1..];
      }
      drained := true;
      assert Ids(g.queue) == items;
      assert View() == AfterClose(g);
      ok := true;
    }
  }

  /** The simple pool never looks at the clock. */
  const NOW: nat -> nat := _ => 0

  function Unstamped(queue: seq<nat>): seq<Item> {
    seq(|queue|, i requires 0 <= i < |queue| => Item(queue[i], 0))
  }
}
