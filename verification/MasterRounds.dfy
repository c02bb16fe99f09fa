/** The master's control loop: probe the wanted processes, start the missing ones, kill the rest. What one
    round does to the managed processes, and what holds over all rounds. */
module MasterRounds {
  import opened Listings

  type Pid = nat

  /** The managed map, the children that are alive, and for each child ever started the ident it was started for;
      the pid of a child is its position there, so pids are fresh. */
  datatype World = World(procs: map<string, Pid>, live: set<Pid>, started: seq<string>)

  /** What happens at a manager call: children that died since the last one, and whether the operation fails. */
  datatype Luck = Luck(deaths: set<Pid>, fails: bool)

  datatype RoundLuck = RoundLuck(probe: nat -> Luck, start: nat -> Luck, kill: nat -> Luck, sleep: set<Pid>)

  function Die(w: World, deaths: set<Pid>): World {
    w.(live := w.live - deaths)
  }

  /** A truthful probe: registered, and the registered child is alive. */
  predicate AliveIn(w: World, ident: string) {
    ident in w.procs && w.procs[ident] in w.live
  }

  function StartOne(w: World, ident: string, luck: Luck): (World, bool) {
    var v := Die(w, luck.deaths);
    if luck.fails then (v, false)
    else (World(v.procs[ident := |v.started|], v.live + {|v.started|}, v.started + [ident]), true)
  }

  function KillOne(w: World, ident: string, luck: Luck): (World, bool) {
    var v := Die(w, luck.deaths);
    if !AliveIn(v, ident) || luck.fails then (v, false)
    else (v.(procs := v.procs - {ident}, live := v.live - {v.procs[ident]}), true)
  }

  datatype Probed = Probed(w: World, alive: seq<string>, down: seq<string>)

  function ProbeAll(w: World, list: seq<string>, luck: nat -> Luck): Probed {
    if list == [] then Probed(w, [], [])
    else
      var p, s := ProbeAll(w, list[..|list| - 1], luck), list[|list| - 1];
      var v := Die(p.w, luck(|list| - 1).deaths);
      if AliveIn(v, s) then Probed(v, p.alive + [s], p.down) else Probed(v, p.alive, p.down + [s])
  }

  /** Starts in order; the first failure ends the attempt. */
  function StartAll(w: World, down: seq<string>, luck: nat -> Luck): (World, bool) {
    if down == [] then (w, true)
    else
      var (v, ok) := StartAll(w, down[..|down| - 1], luck);
      if !ok then (v, false) else StartOne(v, down[|down| - 1], luck(|down| - 1))
  }

  function KillAll(w: World, list: seq<string>, luck: nat -> Luck): (World, bool) {
    if list == [] then (w, true)
    else
      var (v, ok) := KillAll(w, list[..|list| - 1], luck);
      if !ok then (v, false) else KillOne(v, list[|list| - 1], luck(|list| - 1))
  }

  /** What is in `incoming` but not in `existing`. */
  function Difference(existing: seq<string>, incoming: seq<string>): seq<string> {
    if incoming == [] then []
    else
      var rest, v := Difference(existing, incoming[..|incoming| - 1]), incoming[|incoming| - 1];
      if v in existing then rest else rest + [v]
  }

  /** One round; `order` is the order in which the managed idents are listed. The kill list is computed before
      the starts, so it still names wanted entries whose child was found dead. */
  function Round(w: World, list: seq<string>, order: seq<string>, luck: RoundLuck): World {
    var p := ProbeAll(w, list, luck.probe);
    var started := StartAll(p.w, p.down, luck.start).0;
    var killed := KillAll(started, Difference(p.alive, order), luck.kill).0;
    Die(killed, luck.sleep)
  }

  // ---------------------------------------------------------------- safety over all rounds

  /** Every live child is the one registered for the ident it was started for. */
  ghost predicate Inv(w: World) {
    && (forall k | k in w.procs :: w.procs[k] < |w.started| && w.started[w.procs[k]] == k)
    && (forall p | p in w.live :: p < |w.started| && w.started[p] in w.procs && w.procs[w.started[p]] == p)
  }

  /** Hence every live child is registered under exactly one ident, and no ident has two live children. */
  lemma NoChildIsLost(w: World, p: Pid)
    requires Inv(w) && p in w.live
    ensures exists k :: k in w.procs && w.procs[k] == p && forall j | j in w.procs && w.procs[j] == p :: j == k
    ensures forall q | q in w.live && w.started[q] == w.started[p] :: q == p
  {}

  /** Starting an ident keeps the invariant exactly when its registered child, if any, is not alive. */
  lemma StartKeepsInvIff(w: World, ident: string, luck: Luck)
    requires Inv(w) && !luck.fails
    ensures Inv(StartOne(w, ident, luck).0) <==> !AliveIn(Die(w, luck.deaths), ident)
  {}

  lemma KillKeepsInv(w: World, ident: string, luck: Luck)
    requires Inv(w)
    ensures Inv(KillOne(w, ident, luck).0)
  {}

  lemma {:induction false} ProbeFindsTheDead(w: World, list: seq<string>, luck: nat -> Luck)
    requires Inv(w)
    ensures var p := ProbeAll(w, list, luck);
      && Inv(p.w) && p.w.procs == w.procs && p.w.started == w.started
      && (forall s | s in p.down :: s in list && !AliveIn(p.w, s))
      && (forall s | s in p.alive :: s in list)
      && (Distinct(list) ==> Distinct(p.down))
    decreases |list|
  {
    if list != [] {
      ProbeFindsTheDead(w, list[..|list| - 1], luck);
      LastIsNew(list);
    }
  }

  /** Starting distinct idents none of which is alive, whatever dies or fails in between. */
  lemma {:induction false} StartsKeepInv(w: World, down: seq<string>, n: nat, luck: nat -> Luck)
    requires Inv(w) && Distinct(down) && n <= |down| && forall s | s in down :: !AliveIn(w, s)
    ensures var (v, ok) := StartAll(w, down[..n], luck);
      Inv(v) && (ok ==> forall i | n <= i < |down| :: !AliveIn(v, down[i]))
    decreases n
  {
    if n > 0 {
      assert down[..n][..n - 1] == down[..n - 1];
      StartsKeepInv(w, down, n - 1, luck);
      var (v, ok) := StartAll(w, down[..n - 1], luck);
      if ok && !luck(n - 1).fails {
        StartKeepsInvIff(v, down[n - 1], luck(n - 1));
      }
    }
  }

  lemma {:induction false} KillsKeepInv(w: World, list: seq<string>, luck: nat -> Luck)
    requires Inv(w)
    ensures Inv(KillAll(w, list, luck).0)
    decreases |list|
  {
    if list != [] {
      KillsKeepInv(w, list[..|list| - 1], luck);
      KillKeepsInv(KillAll(w, list[..|list| - 1], luck).0, list[|list| - 1], luck(|list| - 1));
    }
  }

  lemma RoundKeepsInv(w: World, list: seq<string>, order: seq<string>, luck: RoundLuck)
    requires Inv(w) && Distinct(list)
    ensures Inv(Round(w, list, order, luck))
  {
    ProbeFindsTheDead(w, list, luck.probe);
    var p := ProbeAll(w, list, luck.probe);
    assert p.down[..|p.down|] == p.down;
    StartsKeepInv(p.w, p.down, |p.down|, luck.start);
    KillsKeepInv(StartAll(p.w, p.down, luck.start).0, Difference(p.alive, order), luck.kill);
  }

  datatype Input = Input(list: seq<string>, order: seq<string>, luck: RoundLuck)

  function Rounds(w: World, inputs: seq<Input>): World {
    if inputs == [] then w
    else
      var i := inputs[|inputs| - 1];
      Round(Rounds(w, inputs[..|inputs| - 1]), i.list, i.order, i.luck)
  }

  /** Over every run of rounds with changing duplicate-free lists, deaths at any moment and failing starts
      and kills, no child is lost and none is doubled. */
  lemma {:induction false} RoundsKeepInv(w: World, inputs: seq<Input>)
    requires Inv(w) && forall i | 0 <= i < |inputs| :: Distinct(inputs[i].list)
    ensures Inv(Rounds(w, inputs))
    decreases |inputs|
  {
    if inputs != [] {
      RoundsKeepInv(w, inputs[..|inputs| - 1]);
      var i := inputs[|inputs| - 1];
      RoundKeepsInv(Rounds(w, inputs[..|inputs| - 1]), i.list, i.order, i.luck);
    }
  }

  const CALM: nat -> Luck := _ => Luck({}, false)
  const CALM_ROUND: RoundLuck := RoundLuck(CALM, CALM, CALM, {})

  /** Every child dies at the first look, so that the whole list is started; then every kill fails. */
  function Unlucky(w: World): RoundLuck {
    RoundLuck(_ => Luck(w.live, false), CALM, _ => Luck({}, true), {})
  }

  lemma {:induction false} AllFoundDead(w: World, list: seq<string>)
    ensures var p := ProbeAll(w, list, Unlucky(w).probe);
      && p.w.procs == w.procs && p.w.started == w.started && p.w.live <= w.live
      && p.down == list && p.alive == []
    decreases |list|
  {
    if list != [] {
      AllFoundDead(w, list[..|list| - 1]);
    }
  }

  lemma {:induction false} AllStarted(w: World, down: seq<string>)
    ensures var (v, ok) := StartAll(w, down, CALM);
      ok && v.started == w.started + down && forall p | |w.started| <= p < |v.started| :: p in v.live
    decreases |down|
  {
    if down != [] {
      AllStarted(w, down[..|down| - 1]);
      assert down == down[..|down| - 1] + [down[|down| - 1]];
    }
  }

  lemma {:induction false} NothingKilled(w: World, list: seq<string>)
    ensures KillAll(w, list, _ => Luck({}, true)).0 == w
    decreases |list|
  {
    if list != [] {
      NothingKilled(w, list[..|list| - 1]);
      assert w.live - {} == w.live;
    }
  }

  /** Any list that names an ident twice can lose a child in a single round, from every state and in every order. */
  lemma DuplicatesLoseAChild(w: World, list: seq<string>, order: seq<string>)
    requires !Distinct(list)
    ensures !Inv(Round(w, list, order, Unlucky(w)))
  {
    var p := ProbeAll(w, list, Unlucky(w).probe);
    AllFoundDead(w, list);
    AllStarted(p.w, list);
    var s := StartAll(p.w, list, CALM).0;
    NothingKilled(s, Difference(p.alive, order));
    var i, j :| 0 <= i < j < |list| && list[i] == list[j];
    TwoLiveChildren(s, |w.started| + i, |w.started| + j);
    assert s.live - {} == s.live;
  }

  lemma TwoLiveChildren(w: World, p: Pid, q: Pid)
    requires p in w.live && q in w.live && p != q && p < |w.started| && q < |w.started|
    requires w.started[p] == w.started[q]
    ensures !Inv(w)
  {}

  /** Exactly the duplicate-free lists are safe: no child is lost or doubled whatever order, deaths and failures a
      round meets. */
  lemma RoundIsSafeIff(w: World, list: seq<string>)
    requires Inv(w)
    ensures (forall order, luck | IsListing(order, w.procs.Keys) :: Inv(Round(w, list, order, luck))) <==> Distinct(list)
  {
    if Distinct(list) {
      forall order, luck | IsListing(order, w.procs.Keys) ensures Inv(Round(w, list, order, luck)) {
        RoundKeepsInv(w, list, order, luck);
      }
    } else {
      var order := ListingOf(w.procs.Keys);
      DuplicatesLoseAChild(w, list, order);
    }
  }

  // ---------------------------------------------------------------- convergence

  /** Every entry that is not wanted has a live child. */
  ghost predicate UnwantedAreAlive(w: World, list: seq<string>) {
    forall k | k in w.procs && k !in list :: AliveIn(w, k)
  }

  ghost predicate Settled(w: World, list: seq<string>) {
    w.procs.Keys == Elems(list) && forall k | k in list :: AliveIn(w, k)
  }

  /** No child dies of itself. */
  ghost predicate Deathless(luck: nat -> Luck) {
    forall i :: luck(i).deaths == {}
  }

  ghost predicate DeathlessRound(luck: RoundLuck) {
    Deathless(luck.probe) && Deathless(luck.start) && Deathless(luck.kill) && luck.sleep == {}
  }

  function UpIn(w: World, list: seq<string>): set<string> {
    set s | s in list && AliveIn(w, s)
  }

  /** The probes split the list, in order. */
  lemma {:induction false} CalmProbe(w: World, list: seq<string>, all: seq<string>, luck: nat -> Luck)
    requires Deathless(luck) && forall s | s in list :: s in all
    ensures ProbeAll(w, list, luck) == Probed(w, Chosen(list, UpIn(w, all)), Chosen(list, Elems(all) - UpIn(w, all)))
    decreases |list|
  {
    if list != [] {
      CalmProbe(w, list[..|list| - 1], all, luck);
      ChosenLast(list, UpIn(w, all));
      ChosenLast(list, Elems(all) - UpIn(w, all));
      assert list[|list| - 1] in list;
      assert w.live - {} == w.live;
    }
  }

  /** Reference definition of the difference: the incoming elements that are not existing, in order. */
  lemma {:induction false} DifferenceIsChosen(existing: seq<string>, incoming: seq<string>, all: seq<string>)
    requires forall s | s in incoming :: s in all
    ensures Difference(existing, incoming) == Chosen(incoming, Elems(all) - Elems(existing))
    decreases |incoming|
  {
    if incoming != [] {
      DifferenceIsChosen(existing, incoming[..|incoming| - 1], all);
      ChosenLast(incoming, Elems(all) - Elems(existing));
      assert incoming[|incoming| - 1] in incoming;
    }
  }

  lemma {:induction false} DifferenceElems(existing: seq<string>, incoming: seq<string>)
    ensures forall s :: s in Difference(existing, incoming) <==> s in incoming && s !in existing
    ensures Distinct(incoming) ==> Distinct(Difference(existing, incoming))
    decreases |incoming|
  {
    if incoming != [] {
      DifferenceElems(existing, incoming[..|incoming| - 1]);
      LastIsNew(incoming);
    }
  }

  /** `v` is `w` after the idents in `ks` were started. */
  ghost predicate StartedFrom(w: World, v: World, ks: set<string>) {
    && Inv(v) && v.procs.Keys == w.procs.Keys + ks
    && (forall k | k in ks :: AliveIn(v, k))
    && (forall k | k in w.procs && k !in ks :: v.procs[k] == w.procs[k] && (AliveIn(v, k) <==> AliveIn(w, k)))
  }

  lemma StartOneMore(w: World, v: World, ks: set<string>, s: string)
    requires Inv(w) && StartedFrom(w, v, ks) && s !in ks && !AliveIn(w, s)
    ensures var (u, ok) := StartOne(v, s, Luck({}, false));
      ok && StartedFrom(w, u, ks + {s})
  {
    assert !AliveIn(v, s);
    StartKeepsInvIff(v, s, Luck({}, false));
  }

  lemma NextStart(w: World, v: World, ks: set<string>, s: string, luck: Luck)
    requires Inv(w) && StartedFrom(w, v, ks) && s !in ks && luck.deaths == {} && !AliveIn(w, s)
    ensures var (u, ok) := StartOne(v, s, luck);
      ok == !luck.fails && if ok then StartedFrom(w, u, ks + {s}) && u.started == v.started + [s] else u == v
  {
    assert v.live - {} == v.live;
    if !luck.fails {
      assert luck == Luck({}, false);
      StartOneMore(w, v, ks, s);
    }
  }

  /** The starts went through up to `j`. */
  ghost predicate StartedUpTo(w: World, v: World, down: seq<string>, luck: nat -> Luck, j: nat) {
    && j <= |down| && (forall i | 0 <= i < j :: !luck(i).fails) && (j < |down| ==> luck(j).fails)
    && StartedFrom(w, v, Elems(down[..j])) && v.started == w.started + down[..j]
  }

  /** One ident more, after an earlier start failed or all went through. */
  lemma StartedOneMore(w: World, v: World, down: seq<string>, luck: nat -> Luck, j: nat)
    requires Inv(w) && Distinct(down) && Deathless(luck) && down != [] && !AliveIn(w, down[|down| - 1])
    requires StartedUpTo(w, v, down[..|down| - 1], luck, j)
    ensures var n, (u, ok) := |down| - 1, StartOne(v, down[|down| - 1], luck(|down| - 1));
      if j < n then StartedUpTo(w, v, down, luck, j)
      else ok == !luck(n).fails && StartedUpTo(w, u, down, luck, if ok then n + 1 else n)
  {
    var n := |down| - 1;
    var front, s := down[..n], down[n];
    assert front[..j] == down[..j];
    if j == n {
      LastIsNew(down);
      assert front[..n] == front && down[..n + 1] == down;
      NextStart(w, v, Elems(front), s, luck(n));
      assert (w.started + front) + [s] == w.started + down;
    }
  }

  /** If no child dies the starts go through up to the first that fails. */
  lemma {:induction false} StartsUpTo(w: World, down: seq<string>, luck: nat -> Luck) returns (j: nat)
    requires Inv(w) && Distinct(down) && Deathless(luck) && forall s | s in down :: !AliveIn(w, s)
    ensures var (v, ok) := StartAll(w, down, luck);
      (ok <==> j == |down|) && StartedUpTo(w, v, down, luck, j) && (down == [] ==> v == w)
    decreases |down|
  {
    if down == [] {
      j := 0;
    } else {
      var n := |down| - 1;
      assert down[n] in down;
      j := StartsUpTo(w, down[..n], luck);
      StartedOneMore(w, StartAll(w, down[..n], luck).0, down, luck, j);
      if j == n && !luck(n).fails {
        j := n + 1;
      }
    }
  }

  /** `v` is `w` after the children of `ks` were killed. */
  ghost predicate KilledFrom(w: World, v: World, ks: set<string>) {
    && Inv(v) && v.procs.Keys == w.procs.Keys - ks && v.started == w.started
    && (forall k | k in v.procs :: v.procs[k] == w.procs[k] && (AliveIn(v, k) <==> AliveIn(w, k)))
  }

  lemma KillOneMore(w: World, v: World, ks: set<string>, s: string)
    requires Inv(w) && KilledFrom(w, v, ks) && s !in ks && AliveIn(w, s)
    ensures var (u, ok) := KillOne(v, s, Luck({}, false));
      ok && KilledFrom(w, u, ks + {s})
  {
    assert s in v.procs && AliveIn(v, s);
    KillKeepsInv(v, s, Luck({}, false));
    assert Die(v, {}) == v;
  }

  lemma NextKill(w: World, v: World, ks: set<string>, s: string, luck: Luck)
    requires Inv(w) && KilledFrom(w, v, ks) && s !in ks && luck.deaths == {}
    ensures var (u, ok) := KillOne(v, s, luck);
      ok == (!luck.fails && AliveIn(w, s)) && if ok then KilledFrom(w, u, ks + {s}) else u == v
  {
    assert v.live - {} == v.live;
    assert s in v.procs.Keys <==> s in w.procs.Keys;
    if !luck.fails && AliveIn(w, s) {
      assert luck == Luck({}, false);
      KillOneMore(w, v, ks, s);
    }
  }

  /** The kills went through up to `j`. */
  ghost predicate KilledUpTo(w: World, v: World, list: seq<string>, luck: nat -> Luck, j: nat) {
    && j <= |list| && (forall i | 0 <= i < j :: !luck(i).fails && AliveIn(w, list[i]))
    && (j < |list| ==> luck(j).fails || !AliveIn(w, list[j]))
    && KilledFrom(w, v, Elems(list[..j]))
  }

  /** One entry more, after an earlier kill failed or all went through. */
  lemma KilledOneMore(w: World, v: World, list: seq<string>, luck: nat -> Luck, j: nat)
    requires Inv(w) && Distinct(list) && Deathless(luck) && list != []
    requires KilledUpTo(w, v, list[..|list| - 1], luck, j)
    ensures var n, (u, ok) := |list| - 1, KillOne(v, list[|list| - 1], luck(|list| - 1));
      if j < n then KilledUpTo(w, v, list, luck, j)
      else ok == (!luck(n).fails && AliveIn(w, list[n])) && KilledUpTo(w, u, list, luck, if ok then n + 1 else n)
  {
    var n := |list| - 1;
    var front, s := list[..n], list[n];
    assert front[..j] == list[..j];
    if j == n {
      LastIsNew(list);
      assert front[..n] == front && list[..n + 1] == list;
      NextKill(w, v, Elems(front), s, luck(n));
    }
  }

  /** If no child dies the kills go through up to the first that fails or finds its child dead. */
  lemma {:induction false} KillsUpTo(w: World, list: seq<string>, luck: nat -> Luck) returns (j: nat)
    requires Inv(w) && Distinct(list) && Deathless(luck)
    ensures var (v, ok) := KillAll(w, list, luck);
      (ok <==> j == |list|) && KilledUpTo(w, v, list, luck, j) && (list == [] ==> v == w)
    decreases |list|
  {
    if list == [] {
      j := 0;
    } else {
      var n := |list| - 1;
      j := KillsUpTo(w, list[..n], luck);
      KilledOneMore(w, KillAll(w, list[..n], luck).0, list, luck, j);
      if j == n && !luck(n).fails && AliveIn(w, list[n]) {
        j := n + 1;
      }
    }
  }

  /** The wanted idents without a live child, in the order of the list, and the managed idents to be killed, in the order
      in which they are listed: all but the wanted ones with a live child. */
  function Down(w: World, list: seq<string>): seq<string> {
    Chosen(list, Elems(list) - UpIn(w, list))
  }

  function Kills(w: World, list: seq<string>, order: seq<string>): seq<string> {
    Chosen(order, Elems(order) - UpIn(w, list))
  }

  lemma PlanElems(w: World, list: seq<string>, order: seq<string>)
    requires Distinct(list) && Distinct(order)
    ensures Distinct(Down(w, list)) && forall k :: k in Down(w, list) <==> k in list && !AliveIn(w, k)
    ensures Distinct(Kills(w, list, order))
    ensures forall k :: k in Kills(w, list, order) <==> k in order && !(k in list && AliveIn(w, k))
  {
    ChosenElems(list, Elems(list) - UpIn(w, list));
    ChosenElems(order, Elems(order) - UpIn(w, list));
  }

  lemma RoundIsPlanned(w: World, list: seq<string>, order: seq<string>, luck: RoundLuck)
    requires DeathlessRound(luck)
    ensures Round(w, list, order, luck) ==
      KillAll(StartAll(w, Down(w, list), luck.start).0, Kills(w, list, order), luck.kill).0
  {
    CalmProbe(w, list, list, luck.probe);
    DifferenceIsChosen(Chosen(list, UpIn(w, list)), order, order);
    ChosenElems(list, UpIn(w, list));
    assert Elems(Chosen(list, UpIn(w, list))) == UpIn(w, list);
    var v := KillAll(StartAll(w, Down(w, list), luck.start).0, Kills(w, list, order), luck.kill).0;
    assert Die(v, {}) == v;
  }

  /** One round in which no child dies of itself, whatever fails: the idents without a live child are started in the order
      of the list up to the first failing start; then, whether or not a start failed, entries are killed in the order of
      the listing up to the first failing kill or dead child. */
  lemma RoundSteps(w: World, list: seq<string>, order: seq<string>, luck: RoundLuck) returns (s: World, a: nat, b: nat)
    requires Inv(w) && Distinct(list) && IsListing(order, w.procs.Keys) && DeathlessRound(luck)
    ensures StartedUpTo(w, s, Down(w, list), luck.start, a) && (Down(w, list) == [] ==> s == w)
    ensures var kills, v := Kills(w, list, order), Round(w, list, order, luck);
      KilledUpTo(s, v, kills, luck.kill, b) && (kills == [] ==> v == s)
  {
    PlanElems(w, list, order);
    RoundIsPlanned(w, list, order, luck);
    a := StartsUpTo(w, Down(w, list), luck.start);
    s := StartAll(w, Down(w, list), luck.start).0;
    b := KillsUpTo(s, Kills(w, list, order), luck.kill);
  }

  /** The children started by a round. */
  function NewIn(w: World, v: World): seq<string>
    requires |w.started| <= |v.started|
  {
    v.started[|w.started|..]
  }

  /** An entry that was not started in the round keeps its child, alive or dead, until it is killed. */
  lemma RoundEntries(w: World, list: seq<string>, order: seq<string>, luck: RoundLuck, s: World, a: nat, b: nat)
    requires Inv(w) && Distinct(list) && IsListing(order, w.procs.Keys)
    requires StartedUpTo(w, s, Down(w, list), luck.start, a)
    requires KilledUpTo(s, Round(w, list, order, luck), Kills(w, list, order), luck.kill, b)
    ensures var v := Round(w, list, order, luck);
      && |w.started| <= |v.started| && NewIn(w, v) == Down(w, list)[..a]
      && (forall k | k in NewIn(w, v) :: AliveIn(s, k))
      && (forall k | k in w.procs && k !in NewIn(w, v) :: k in s.procs && s.procs[k] == w.procs[k] && (AliveIn(s, k) <==> AliveIn(w, k)))
      && (forall k :: k in v.procs <==> (k in w.procs || k in NewIn(w, v)) && k !in Kills(w, list, order)[..b])
      && (forall k | k in v.procs :: v.procs[k] == s.procs[k] && (AliveIn(v, k) <==> AliveIn(s, k)))
  {
    var v, news, killed := Round(w, list, order, luck), Down(w, list)[..a], Kills(w, list, order)[..b];
    assert NewIn(w, v) == news;
    assert forall k :: (k in news <==> k in Elems(news)) && (k in killed <==> k in Elems(killed));
    forall k ensures k in v.procs <==> (k in w.procs || k in news) && k !in killed {
      assert k in v.procs <==> k in v.procs.Keys;
      assert k in s.procs <==> k in s.procs.Keys;
    }
  }

  /** In a round without deaths, whatever starts and kills fail: new children are started in the order of the list, all up
      to the first start that fails, and an ident whose child was dead and is not started again keeps its entry as it
      was. Live wanted children are left alone. */
  lemma StartsInListOrder(w: World, list: seq<string>, order: seq<string>, luck: RoundLuck)
    requires Inv(w) && Distinct(list) && IsListing(order, w.procs.Keys) && DeathlessRound(luck)
    ensures var v := Round(w, list, order, luck);
      && w.started <= v.started && NewIn(w, v) <= Down(w, list)
      && (forall i | 0 <= i < |NewIn(w, v)| :: !luck.start(i).fails)
      && (NewIn(w, v) == Down(w, list) || luck.start(|NewIn(w, v)|).fails)
      && (forall k | k in list && AliveIn(w, k) :: k in v.procs && v.procs[k] == w.procs[k] && AliveIn(v, k))
      && (forall k | !AliveIn(w, k) && k !in NewIn(w, v) :: (k in v.procs <==> k in w.procs) && (k in v.procs ==> v.procs[k] == w.procs[k]))
  {
    var s, a, b := RoundSteps(w, list, order, luck);
    RoundEntries(w, list, order, luck, s, a, b);
    PlanElems(w, list, order);
    var kills := Kills(w, list, order);
    assert forall k | k in kills[..b] :: AliveIn(s, k);
    assert forall k | k in Down(w, list)[..a] :: k in Down(w, list);
    assert forall k | k in kills[..b] :: k in kills;
  }

  /** Which unwanted children a round without deaths and failing kills ends, however the starts fail: an unwanted live
      entry is gone, and its child dead, if and only if every entry listed before it either was found alive or was started
      again. Otherwise it stays as it was. */
  lemma UnwantedGoneIff(w: World, list: seq<string>, order: seq<string>, luck: RoundLuck, n: nat)
    requires Inv(w) && Distinct(list) && IsListing(order, w.procs.Keys) && DeathlessRound(luck)
    requires (forall i :: !luck.kill(i).fails) && n < |order| && order[n] !in list && AliveIn(w, order[n])
    ensures var v := Round(w, list, order, luck);
      && |w.started| <= |v.started|
      && (order[n] !in v.procs <==> forall k | k in order[..n] && !AliveIn(w, k) :: k in NewIn(w, v))
      && (order[n] !in v.procs <==> w.procs[order[n]] !in v.live)
      && (order[n] in v.procs ==> v.procs[order[n]] == w.procs[order[n]])
  {
    var s, a, b := RoundSteps(w, list, order, luck);
    RoundEntries(w, list, order, luck, s, a, b);
    PlanElems(w, list, order);
    StartedAlive(w, s, Down(w, list)[..a], Kills(w, list, order));
    PlaceDecides(w, s, list, order, Down(w, list)[..a], b, n);
  }

  lemma PlaceDecides(w: World, s: World, list: seq<string>, order: seq<string>, news: seq<string>, b: nat, n: nat)
    requires Distinct(list) && Distinct(order) && n < |order| && order[n] !in list && AliveIn(w, order[n])
    requires forall k | k in Kills(w, list, order) :: AliveIn(s, k) <==> k in news || AliveIn(w, k)
    requires b <= |Kills(w, list, order)| && forall i | 0 <= i < b :: AliveIn(s, Kills(w, list, order)[i])
    requires b < |Kills(w, list, order)| ==> !AliveIn(s, Kills(w, list, order)[b])
    ensures order[n] in Kills(w, list, order)[..b] <==> forall k | k in order[..n] && !AliveIn(w, k) :: k in news
  {
    var kills := Kills(w, list, order);
    PlanElems(w, list, order);
    var p := PlaceInKills(w, list, order, n);
    var dead, able := set k | k in order && !AliveIn(w, k), set k | k in kills && AliveIn(s, k);
    assert forall i | 0 <= i < |kills| :: kills[i] in kills;
    FirstStuckDecides(kills, order[..n], dead, able, p, b);
    assert forall k | k in order[..n] :: k in order;
  }

  /** A list worked off up to the first entry that is not able: the entry at `p` is reached if and only if none of the dead
      ones before it is stuck. */
  lemma FirstStuckDecides(kills: seq<string>, before: seq<string>, dead: set<string>, able: set<string>, p: nat, b: nat)
    requires p < |kills| && Distinct(kills) && kills[p] in able
    requires b <= |kills| && (forall i | 0 <= i < b :: kills[i] in able) && (b < |kills| ==> kills[b] !in able)
    requires forall k | k in kills && k !in dead :: k in able
    requires forall k | k in before && k in dead :: k in kills
    requires forall k :: k in kills[..p] <==> k in before && k in kills
    ensures kills[p] in kills[..b] <==> forall k | k in before && k in dead :: k in able
  {
    if p < b {
      assert kills[..b][p] == kills[p];
      forall k | k in before && k in dead ensures k in able {
        assert k in kills[..p];
      }
    } else {
      assert b < p && kills[..p][b] == kills[b];
      assert kills[b] in kills[..p] && kills[b] in kills;
    }
  }

  /** Where an unwanted entry stands in the kill list: behind exactly the entries to be killed that are listed before it. */
  lemma PlaceInKills(w: World, list: seq<string>, order: seq<string>, n: nat) returns (p: nat)
    requires n < |order| && order[n] !in list
    ensures var kills := Kills(w, list, order);
      p < |kills| && kills[p] == order[n] && forall k :: k in kills[..p] <==> k in order[..n] && k in kills
  {
    var keep, kills := Elems(order) - UpIn(w, list), Kills(w, list, order);
    var front := Chosen(order[..n], keep);
    p := |front|;
    ChosenInTwo(order, keep, n);
    assert order[n..][0] == order[n] && order[n] in order;
    assert kills[..p] == front;
    ChosenElems(order[..n], keep);
    ChosenElems(order, keep);
    assert forall k | k in order[..n] :: k in order;
  }

  /** After the starts an entry has a live child if it was just started or had one before. */
  lemma StartedAlive(w: World, s: World, news: seq<string>, kills: seq<string>)
    requires StartedFrom(w, s, Elems(news)) && forall k | k in kills :: k in w.procs
    ensures forall k | k in kills :: AliveIn(s, k) <==> k in news || AliveIn(w, k)
  {
    assert forall k :: k in news <==> k in Elems(news);
  }

  /** If every registered child is alive, then however the starts fail, after the round no unwanted ident is managed and no
      unwanted child is alive. */
  lemma FailedStartsSpareNobody(w: World, list: seq<string>, order: seq<string>, luck: RoundLuck)
    requires Inv(w) && Distinct(list) && IsListing(order, w.procs.Keys) && DeathlessRound(luck)
    requires (forall i :: !luck.kill(i).fails) && forall k | k in w.procs :: AliveIn(w, k)
    ensures var v := Round(w, list, order, luck);
      && (forall k | k in w.procs && k !in list :: k !in v.procs && w.procs[k] !in v.live)
      && (forall k | k in w.procs && k in list :: k in v.procs && v.procs[k] == w.procs[k] && AliveIn(v, k))
  {
    forall k | k in w.procs && k !in list
      ensures k !in Round(w, list, order, luck).procs && w.procs[k] !in Round(w, list, order, luck).live
    {
      var n :| 0 <= n < |order| && order[n] == k;
      UnwantedGoneIff(w, list, order, luck, n);
      assert forall j | j in order[..n] :: j in order;
    }
    StartsInListOrder(w, list, order, luck);
  }

  lemma CalmRoundSteps(w: World, list: seq<string>, order: seq<string>)
    returns (down: seq<string>, s: World, kills: seq<string>)
    requires Inv(w) && Distinct(list) && IsListing(order, w.procs.Keys) && UnwantedAreAlive(w, list)
    ensures forall k :: k in down <==> k in list && !AliveIn(w, k)
    ensures forall k :: k in kills <==> k in w.procs && !(k in list && AliveIn(w, k))
    ensures StartedFrom(w, s, Elems(down)) && (down == [] ==> s == w)
    ensures var v := Round(w, list, order, CALM_ROUND);
      KilledFrom(s, v, Elems(kills)) && (kills == [] ==> v == s)
  {
    down, kills := Down(w, list), Kills(w, list, order);
    PlanElems(w, list, order);
    var a, b;
    s, a, b := RoundSteps(w, list, order, CALM_ROUND);
    assert a == |down| && down[..|down|] == down;
    KillsAreAlive(w, s, list, down, kills);
    assert forall i | 0 <= i < |kills| :: kills[i] in kills;
    assert b == |kills| && kills[..|kills|] == kills;
  }

  /** Everything on the kill list is alive by the time it is killed. */
  lemma KillsAreAlive(w: World, s: World, list: seq<string>, down: seq<string>, kills: seq<string>)
    requires StartedFrom(w, s, Elems(down)) && UnwantedAreAlive(w, list)
    requires forall k :: k in down <==> k in list && !AliveIn(w, k)
    requires forall k :: k in kills <==> k in w.procs && !(k in list && AliveIn(w, k))
    ensures forall k | k in kills :: AliveIn(s, k)
  {}

  /** One calm round: unwanted entries are gone, live wanted children are untouched, missing ones are started;
      wanted entries whose child was dead have been restarted and killed again. */
  lemma CalmRound(w: World, list: seq<string>, order: seq<string>)
    requires Inv(w) && Distinct(list) && IsListing(order, w.procs.Keys) && UnwantedAreAlive(w, list)
    ensures var v := Round(w, list, order, CALM_ROUND);
      && Inv(v)
      && (forall k :: k in v.procs <==> k in list && (AliveIn(w, k) || k !in w.procs))
      && (forall k | k in v.procs :: AliveIn(v, k))
      && (forall k | k in list && AliveIn(w, k) :: v.procs[k] == w.procs[k])
  {
    var down, s, kills := CalmRoundSteps(w, list, order);
    var v := Round(w, list, order, CALM_ROUND);
    assert forall k :: k in Elems(down) <==> k in down;
    assert forall k :: k in Elems(kills) <==> k in kills;
    forall k ensures k in v.procs <==> k in list && (AliveIn(w, k) || k !in w.procs) {
      assert k in v.procs <==> k in v.procs.Keys;
      assert k in s.procs <==> k in s.procs.Keys;
    }
  }

  /** Once settled a calm round changes nothing. */
  lemma SettledIsStable(w: World, list: seq<string>, order: seq<string>)
    requires Inv(w) && Distinct(list) && IsListing(order, w.procs.Keys) && Settled(w, list)
    ensures Round(w, list, order, CALM_ROUND) == w
  {
    assert forall k :: k in list <==> k in Elems(list);
    var down, s, kills := CalmRoundSteps(w, list, order);
    EmptyIfNoElems(down);
    EmptyIfNoElems(kills);
  }

  lemma EmptyIfNoElems(s: seq<string>)
    ensures s == [] <==> forall k :: k !in s
  {
    if s != [] { assert s[0] in s; }
  }

  /** A dead entry that is not wanted blocks its own removal in every round: Kill reports it as missing. */
  lemma {:induction false} DeadUnwantedStays(w: World, k: string, list: seq<string>, order: seq<string>,
      luck: RoundLuck)
    requires k in w.procs && k !in list && w.procs[k] < |w.started| && !AliveIn(w, k)
    ensures var v := Round(w, list, order, luck);
      k in v.procs && v.procs[k] == w.procs[k] && |w.started| <= |v.started| && !AliveIn(v, k)
  {
    var p := ProbeAll(w, list, luck.probe);
    DeadThroughProbe(w, k, list, luck.probe);
    DeadThroughStarts(p.w, k, p.down, luck.start);
    DeadThroughKills(StartAll(p.w, p.down, luck.start).0, k, Difference(p.alive, order), luck.kill);
  }

  /** `k` is registered to a dead child in both worlds. */
  predicate StillDead(w: World, v: World, k: string) {
    && k in w.procs && k in v.procs && v.procs[k] == w.procs[k] && w.procs[k] < |w.started| <= |v.started|
    && !AliveIn(v, k)
  }

  lemma {:induction false} DeadThroughProbe(w: World, k: string, list: seq<string>, luck: nat -> Luck)
    requires StillDead(w, w, k) && k !in list
    ensures StillDead(w, ProbeAll(w, list, luck).w, k) && k !in ProbeAll(w, list, luck).down
    decreases |list|
  {
    if list != [] {
      DeadThroughProbe(w, k, list[..|list| - 1], luck);
    }
  }

  lemma {:induction false} DeadThroughStarts(w: World, k: string, down: seq<string>, luck: nat -> Luck)
    requires StillDead(w, w, k) && k !in down
    ensures StillDead(w, StartAll(w, down, luck).0, k)
    decreases |down|
  {
    if down != [] {
      DeadThroughStarts(w, k, down[..|down| - 1], luck);
    }
  }

  lemma {:induction false} DeadThroughKills(w: World, k: string, list: seq<string>, luck: nat -> Luck)
    requires StillDead(w, w, k)
    ensures StillDead(w, KillAll(w, list, luck).0, k)
    decreases |list|
  {
    if list != [] {
      DeadThroughKills(w, k, list[..|list| - 1], luck);
    }
  }

  /** Two rounds settle, from any managed map, exactly when every unwanted entry has a live child; wanted entries
      may be dead. A third round then changes nothing. */
  lemma TwoRoundsSettleIff(w: World, list: seq<string>, order1: seq<string>, order2: seq<string>, order3: seq<string>)
    requires Inv(w) && Distinct(list) && IsListing(order1, w.procs.Keys)
    requires var w1 := Round(w, list, order1, CALM_ROUND);
      var w2 := Round(w1, list, order2, CALM_ROUND);
      IsListing(order2, w1.procs.Keys) && IsListing(order3, w2.procs.Keys)
    ensures var w1 := Round(w, list, order1, CALM_ROUND);
      var w2 := Round(w1, list, order2, CALM_ROUND);
      && (Settled(w2, list) <==> UnwantedAreAlive(w, list))
      && (Settled(w2, list) ==> w1.procs.Keys <= Elems(list) && Round(w2, list, order3, CALM_ROUND) == w2)
  {
    var w1 := Round(w, list, order1, CALM_ROUND);
    var w2 := Round(w1, list, order2, CALM_ROUND);
    if UnwantedAreAlive(w, list) {
      CalmRound(w, list, order1);
      CalmRound(w1, list, order2);
      assert forall k :: k in list <==> k in Elems(list);
      assert w2.procs.Keys == Elems(list);
      SettledIsStable(w2, list, order3);
    } else {
      var k :| k in w.procs && k !in list && !AliveIn(w, k);
      DeadUnwantedStays(w, k, list, order1, CALM_ROUND);
      DeadUnwantedStays(w1, k, list, order2, CALM_ROUND);
      assert k !in Elems(list);
    }
  }
}
