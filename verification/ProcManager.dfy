/** `implProcManager` and the functions of the master loop that drive it. */
module ProcManager {
  import opened Listings
  import opened MasterRounds

  class Manager {
    var procs: map<string, Pid>
    /** The operating system's side: live children, and for whom each was started. */
    var live: set<Pid>
    var started: seq<string>

    function View(): World
      reads this
    {
      World(procs, live, started)
    }

    constructor ()
      ensures View() == World(map[], {}, []) && Inv(View())
    {
      procs, live, started := map[], {}, [];
    }

    /** The managed idents, in any order. */
    method List() returns (keys: seq<string>)
      ensures IsListing(keys, procs.Keys)
    {
      keys := [];
      var left := procs.Keys;
      while left != {}
        invariant left <= procs.Keys
        invariant Distinct(keys) && forall k :: k in keys <==> k in procs && k !in left
        decreases |left|
      {
        var k :| k in left;
        keys, left := keys + [k], left - {k};
        LastIsNew(keys);
        assert keys[..|keys| - 1] + [k] == keys;
      }
    }

    method Start(ident: string, luck: Luck) returns (pid: Pid, ok: bool)
      modifies this
      ensures (View(), ok) == StartOne(old(View()), ident, luck)
      ensures ok == !luck.fails
      ensures ok ==> pid == |old(started)| && started == old(started) + [ident]
      ensures ok ==> procs == old(procs)[ident := pid] && live == old(live) - luck.deaths + {pid}
      ensures !ok ==> procs == old(procs) && live == old(live) - luck.deaths && started == old(started)
    {
      live := live - luck.deaths;
      if luck.fails {
        return 0, false;
      }
      pid := |started|;
      live, started := live + {pid}, started + [ident];
      procs := procs[ident := pid];
      ok := true;
    }

    method Alive(ident: string, luck: Luck) returns (alive: bool)
      modifies `live
      ensures View() == Die(old(View()), luck.deaths) && alive == AliveIn(View(), ident)
      ensures live == old(live) - luck.deaths && (alive <==> ident in procs && procs[ident] in live)
    {
      live := live - luck.deaths;
      if ident !in procs {
        return false;
      }
      alive := procs[ident] in live;
    }

    method Kill(ident: string, luck: Luck) returns (ok: bool)
      modifies this
      ensures (View(), ok) == KillOne(old(View()), ident, luck)
      ensures ok <==> ident in old(procs) && old(procs)[ident] in old(live) - luck.deaths && !luck.fails
      ensures ok ==> procs == old(procs) - {ident} && live == old(live) - luck.deaths - {old(procs)[ident]}
      ensures !ok ==> procs == old(procs) && live == old(live) - luck.deaths
      ensures started == old(started)
    {
      live := live - luck.deaths;
      if ident !in procs {
        return false;
      }
      var pid := procs[ident];
      if pid !in live {
        return false;
      }
      if luck.fails {
        return false;
      }
      live := live - {pid};
      procs := procs - {ident};
      ok := true;
    }
  }

  method MasterCurrentProcList(m: Manager, list: seq<string>, luck: nat -> Luck)
    returns (alive: seq<string>, down: seq<string>)
    modifies m`live
    ensures Probed(m.View(), alive, down) == ProbeAll(old(m.View()), list, luck)
  {
    alive, down := [], [];
    for i := 0 to |list|
      invariant Probed(m.View(), alive, down) == ProbeAll(old(m.View()), list[..i], luck)
    {
      assert list[..i + 1][..i] == list[..i];
      var up := m.Alive(list[i], luck(i));
      if up {
        alive := alive + [list[i]];
      } else {
        down := down + [list[i]];
      }
    }
    assert list[..|list|] == list;
  }

  method MasterDownStart(m: Manager, down: seq<string>, luck: nat -> Luck) returns (ok: bool)
    modifies m
    ensures (m.View(), ok) == StartAll(old(m.View()), down, luck)
  {
    ghost var start := m.View();
    for i := 0 to |down|
      invariant StartAll(start, down[..i], luck) == (m.View(), true)
    {
      assert down[..i + 1][..i] == down[..i];
      var _, started := m.Start(down[i], luck(i));
      if !started {
        StartFailureIsFinal(start, down, i + 1, luck);
        return false;
      }
    }
    assert down[..|down|] == down;
    ok := true;
  }

  method MasterDownAliveProc(m: Manager, killList: seq<string>, luck: nat -> Luck) returns (ok: bool)
    modifies m
    ensures (m.View(), ok) == KillAll(old(m.View()), killList, luck)
  {
    ghost var start := m.View();
    for i := 0 to |killList|
      invariant KillAll(start, killList[..i], luck) == (m.View(), true)
    {
      assert killList[..i + 1][..i] == killList[..i];
      var killed := m.Kill(killList[i], luck(i));
      if !killed {
        KillFailureIsFinal(start, killList, i + 1, luck);
        return false;
      }
    }
    assert killList[..|killList|] == killList;
    ok := true;
  }

  lemma {:induction false} StartFailureIsFinal(w: World, down: seq<string>, n: nat, luck: nat -> Luck)
    requires n <= |down| && !StartAll(w, down[..n], luck).1
    ensures StartAll(w, down, luck) == StartAll(w, down[..n], luck)
    decreases |down|
  {
    if n == |down| {
      assert down[..n] == down;
    } else {
      assert down[..|down| - 1][..n] == down[..n];
      StartFailureIsFinal(w, down[..|down| - 1], n, luck);
    }
  }

  lemma {:induction false} KillFailureIsFinal(w: World, list: seq<string>, n: nat, luck: nat -> Luck)
    requires n <= |list| && !KillAll(w, list[..n], luck).1
    ensures KillAll(w, list, luck) == KillAll(w, list[..n], luck)
    decreases |list|
  {
    if n == |list| {
      assert list[..n] == list;
    } else {
      assert list[..|list| - 1][..n] == list[..n];
      KillFailureIsFinal(w, list[..|list| - 1], n, luck);
    }
  }

  /** The elements of `incoming` that are not in `existing`, in order. */
  method Difference(existing: seq<string>, incoming: seq<string>) returns (result: seq<string>)
    ensures result == MasterRounds.Difference(existing, incoming)
    ensures result == Chosen(incoming, Elems(incoming) - Elems(existing))
    ensures forall s :: s in result <==> s in incoming && s !in existing
  {
    result := [];
    for i := 0 to |incoming|
      invariant result == MasterRounds.Difference(existing, incoming[..i])
    {
      assert incoming[..i + 1][..i] == incoming[..i];
      var found := incoming[i] in existing;
      if !found {
        result := result + [incoming[i]];
      }
    }
    assert incoming[..|incoming|] == incoming;
    DifferenceElems(existing, incoming);
    DifferenceIsChosen(existing, incoming, incoming);
  }

  /** One turn of `MasterEntry` with the fetched list; failures of the starts do not keep it from killing. */
  method MasterRound(m: Manager, list: seq<string>, luck: RoundLuck) returns (ghost order: seq<string>)
    modifies m
    ensures IsListing(order, old(m.procs).Keys)
    ensures m.View() == Round(old(m.View()), list, order, luck)
    ensures Inv(old(m.View())) && Distinct(list) ==> Inv(m.View())
  {
    ghost var w := m.View();
    var alive, down := MasterCurrentProcList(m, list, luck.probe);
    var managed := m.List();
    order := managed;
    var killList := Difference(alive, managed);
    var _ := MasterDownStart(m, down, luck.start);
    var _ := MasterDownAliveProc(m, killList, luck.kill);
    m.live := m.live - luck.sleep;
    if Inv(w) && Distinct(list) {
      RoundKeepsInv(w, list, order, luck);
    }
  }
}
