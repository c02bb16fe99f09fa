/** The script plan reconciler: the live plans are brought in line with the fetched scripts by comparing hashes. */
module PlanReset {
  import opened Bytes
  import opened Listings
  import opened Options

  datatype BufferOption = BufferOption(rowCap: int, colsAlloc: int, idleSec: int)

  /** A fetched script: its hash, the number of its read plans, and its option section if it has one. */
  datatype Script = Script(hash: bytes, readPlans: nat, option: Option<BufferOption>)

  /** A live plan. The plan and its state are created together; `id` names that pair. */
  datatype PlanData = PlanData(hash: bytes, id: nat, script: Script)

  /** The plan map, the plans closed so far in order, and the number of plans ever created. */
  datatype World = World(plans: map<string, PlanData>, closed: seq<nat>, next: nat)

  /** `crashed` is the nil dereference of a missing option section. */
  datatype Reset = Reset(w: World, crashed: bool)

  datatype Fetch = Fetch(ks: seq<string>, scripts: map<string, Script>)

  /** A name without a script reads as the zero value. */
  function Fetched(f: Fetch, k: string): Script {
    if k in f.scripts then f.scripts[k] else Script(seq(16, _ => 0), 0, None)
  }

  /** Plans that are no longer wanted are forgotten, not closed. */
  function DropMissing(w: World, ks: seq<string>): World {
    w.(plans := map k | k in w.plans && k in ks :: w.plans[k])
  }

  predicate UpToDate(w: World, f: Fetch, k: string) {
    k in w.plans && w.plans[k].hash == Fetched(f, k).hash
  }

  /** The old plan is closed and removed before the new one is built. */
  function ResetOne(w: World, f: Fetch, k: string): Reset {
    if UpToDate(w, f, k) then Reset(w, false)
    else
      var v := if k in w.plans then World(w.plans - {k}, w.closed + [w.plans[k].id], w.next) else w;
      var s := Fetched(f, k);
      if s.option.None? then Reset(v, true)
      else Reset(World(v.plans[k := PlanData(s.hash, v.next, s)], v.closed, v.next + 1), false)
  }

  function ResetAll(w: World, f: Fetch, ks: seq<string>): Reset {
    if ks == [] then Reset(w, false)
    else
      var before := ResetAll(w, f, ks[..|ks| - 1]);
      if before.crashed then before else ResetOne(before.w, f, ks[|ks| - 1])
  }

  function ResetPlans(w: World, f: Fetch): Reset {
    ResetAll(DropMissing(w, f.ks), f, f.ks)
  }

  // ---------------------------------------------------------------- when it succeeds

  /** What the visited names have become: up to date, unchanged if they were before, rebuilt from the script if not. */
  ghost predicate Visited(w: World, f: Fetch, v: World, ks: seq<string>) {
    && v.next >= w.next
    && (forall k | k in ks :: UpToDate(v, f, k))
    && (forall k | k in ks :: if UpToDate(w, f, k) then v.plans[k] == w.plans[k]
          else w.next <= v.plans[k].id && v.plans[k].script == Fetched(f, k))
    && (forall k | k !in ks :: (k in v.plans <==> k in w.plans) && (k in w.plans ==> v.plans[k] == w.plans[k]))
  }

  lemma {:induction false} VisitAll(w: World, f: Fetch, ks: seq<string>)
    ensures var r := ResetAll(w, f, ks);
      && (!r.crashed ==> Visited(w, f, r.w, ks))
      && (!r.crashed <==> forall k | k in ks :: !UpToDate(w, f, k) ==> Fetched(f, k).option.Some?)
    decreases |ks|
  {
    if ks != [] {
      VisitAll(w, f, ks[..|ks| - 1]);
      LastIsNew(ks);
    }
  }

  /** The live plan of `k` has the hash that was fetched for it; a listed name without a script has the zero hash. */
  predicate HasFetchedHash(w: World, f: Fetch, k: string) {
    k in w.plans && w.plans[k].hash == if k in f.scripts then f.scripts[k].hash else seq(16, _ => 0)
  }

  /** A reset gets through exactly when every listed name keeps its plan or has a script with an option section. Then the
      names are the fetched names, each hash is the fetched hash, plans with an unchanged hash are the same plans, and all
      the others are new ones built from the fetched script. */
  lemma ResetIff(w: World, f: Fetch)
    ensures var r := ResetPlans(w, f);
      && (!r.crashed <==> forall k | k in f.ks :: HasFetchedHash(w, f, k) || (k in f.scripts && f.scripts[k].option.Some?))
      && (!r.crashed ==> Visited(DropMissing(w, f.ks), f, r.w, f.ks))
      && (!r.crashed ==> r.w.plans.Keys == set k | k in f.ks)
      && (!r.crashed ==> forall k | k in f.ks :: HasFetchedHash(r.w, f, k))
      && (!r.crashed ==> forall k | k in f.ks && HasFetchedHash(w, f, k) :: r.w.plans[k] == w.plans[k])
      && (!r.crashed ==> forall k | k in f.ks && !HasFetchedHash(w, f, k) ::
            w.next <= r.w.plans[k].id && r.w.plans[k].script == f.scripts[k] && r.w.plans[k].hash == f.scripts[k].hash)
  {
    VisitAll(DropMissing(w, f.ks), f, f.ks);
    FetchedHash(w, f);
    FetchedHash(ResetPlans(w, f).w, f);
    assert forall k | k in f.ks :: UpToDate(DropMissing(w, f.ks), f, k) <==> HasFetchedHash(w, f, k);
  }

  lemma FetchedHash(w: World, f: Fetch)
    ensures forall k :: UpToDate(w, f, k) <==> HasFetchedHash(w, f, k)
    ensures forall k :: Fetched(f, k).option.Some? <==> k in f.scripts && f.scripts[k].option.Some?
  {}

  /** A plan whose fetched hash changed is replaced: the old one is closed, the new one is built from the fetched script and
      was never there before. */
  lemma ChangedHashIsReplaced(w: World, f: Fetch, k: string)
    requires Inv(w) && !ResetPlans(w, f).crashed && k in f.ks && k in w.plans && k in f.scripts
    requires f.scripts[k].hash != w.plans[k].hash
    ensures var v := ResetPlans(w, f).w;
      && k in v.plans && v.plans[k].script == f.scripts[k] && v.plans[k].hash == f.scripts[k].hash
      && v.plans[k].id !in w.closed && (forall j | j in w.plans :: v.plans[k].id != w.plans[j].id)
      && w.plans[k].id in v.closed
  {
    ResetIff(w, f);
    ClosedExactlyOnce(w, f);
    FetchedHash(w, f);
    assert k in set j | j in f.ks;
    assert w.plans[k].id in Replaced(w, f, f.ks);
    assert w.plans[k].id in multiset(ResetPlans(w, f).w.closed);
  }

  /** The second of two resets with the same scripts does nothing. */
  lemma SecondResetIsIdle(w: World, f: Fetch)
    requires !ResetPlans(w, f).crashed
    ensures ResetPlans(ResetPlans(w, f).w, f) == ResetPlans(w, f)
  {
    var v := ResetPlans(w, f).w;
    ResetIff(w, f);
    assert DropMissing(v, f.ks).plans == v.plans;
    NothingToDo(v, f, f.ks);
  }

  lemma {:induction false} NothingToDo(w: World, f: Fetch, ks: seq<string>)
    requires forall k | k in ks :: UpToDate(w, f, k)
    ensures ResetAll(w, f, ks) == Reset(w, false)
    decreases |ks|
  {
    if ks != [] {
      NothingToDo(w, f, ks[..|ks| - 1]);
    }
  }

  /** A crash happens at a script without option section, once everything before it in the list is done; if the
      script had a plan, that plan is closed and gone. */
  lemma {:induction false} CrashSite(w: World, f: Fetch, ks: seq<string>)
    requires ResetAll(w, f, ks).crashed
    ensures exists i: nat :: CrashesAt(w, f, ks, i)
    decreases |ks|
  {
    var n := |ks| - 1;
    if ResetAll(w, f, ks[..n]).crashed {
      CrashSite(w, f, ks[..n]);
      var i: nat :| CrashesAt(w, f, ks[..n], i);
      assert ks[..n][..i] == ks[..i];
      assert CrashesAt(w, f, ks, i);
    } else {
      assert CrashesAt(w, f, ks, n);
    }
  }

  ghost predicate CrashesAt(w: World, f: Fetch, ks: seq<string>, i: nat) {
    i < |ks| &&
    var before, r, k := ResetAll(w, f, ks[..i]), ResetAll(w, f, ks), ks[i];
    && !before.crashed && Fetched(f, k).option.None?
    && r.w.plans == before.w.plans - {k} && r.w.next == before.w.next
    && r.w.closed == before.w.closed + if k in before.w.plans then [before.w.plans[k].id] else []
  }

  // ---------------------------------------------------------------- what is closed

  /** Live plans are different plans, none of them closed, and no plan was closed twice. */
  ghost predicate Inv(w: World) {
    && (forall k | k in w.plans :: w.plans[k].id < w.next && w.plans[k].id !in w.closed)
    && (forall j, k | j in w.plans && k in w.plans && j != k :: w.plans[j].id != w.plans[k].id)
    && (forall i, j | 0 <= i < j < |w.closed| :: w.closed[i] != w.closed[j])
    && (forall p | p in w.closed :: p < w.next)
  }

  lemma {:induction false} AllKeepInv(w: World, f: Fetch, ks: seq<string>)
    requires Inv(w)
    ensures Inv(ResetAll(w, f, ks).w)
    decreases |ks|
  {
    if ks != [] {
      AllKeepInv(w, f, ks[..|ks| - 1]);
    }
  }

  /** A run of resets; a crash ends it. */
  function Resets(w: World, fs: seq<Fetch>): Reset {
    if fs == [] then Reset(w, false)
    else
      var before := Resets(w, fs[..|fs| - 1]);
      if before.crashed then before else ResetPlans(before.w, fs[|fs| - 1])
  }

  /** Over every run, whatever is fetched and even if it crashes, no plan is closed twice and none is in use closed. */
  lemma {:induction false} ResetsKeepInv(w: World, fs: seq<Fetch>)
    requires Inv(w)
    ensures Inv(Resets(w, fs).w)
    decreases |fs|
  {
    if fs != [] {
      ResetsKeepInv(w, fs[..|fs| - 1]);
      var before := Resets(w, fs[..|fs| - 1]).w;
      AllKeepInv(DropMissing(before, fs[|fs| - 1].ks), fs[|fs| - 1], fs[|fs| - 1].ks);
    }
  }

  /** The plans that a reset replaces. */
  function Replaced(w: World, f: Fetch, ks: seq<string>): set<nat> {
    set k | k in w.plans && k in ks && !UpToDate(w, f, k) :: w.plans[k].id
  }

  lemma {:induction false} ClosesReplaced(w: World, f: Fetch, ks: seq<string>)
    requires Inv(w) && !ResetAll(w, f, ks).crashed
    ensures multiset(ResetAll(w, f, ks).w.closed) == multiset(w.closed) + multiset(Replaced(w, f, ks))
    decreases |ks|
  {
    if ks == [] {
      assert Replaced(w, f, ks) == {};
    } else {
      ClosesReplaced(w, f, ks[..|ks| - 1]);
      VisitAll(w, f, ks[..|ks| - 1]);
      ReplacedNext(w, f, ks, ResetAll(w, f, ks[..|ks| - 1]).w);
    }
  }

  lemma ReplacedNext(w: World, f: Fetch, ks: seq<string>, before: World)
    requires Inv(w) && ks != [] && Visited(w, f, before, ks[..|ks| - 1])
    ensures var front, k := ks[..|ks| - 1], ks[|ks| - 1];
      if UpToDate(before, f, k) || k !in before.plans then Replaced(w, f, ks) == Replaced(w, f, front)
      else
        && k in w.plans && before.plans[k].id == w.plans[k].id
        && w.plans[k].id !in Replaced(w, f, front) && Replaced(w, f, ks) == Replaced(w, f, front) + {w.plans[k].id}
  {
    LastIsNew(ks);
    var front, k := ks[..|ks| - 1], ks[|ks| - 1];
    if UpToDate(before, f, k) || k !in before.plans {
      assert Replaced(w, f, ks) == Replaced(w, f, front);
    } else {
      assert Replaced(w, f, ks) == Replaced(w, f, front) + {w.plans[k].id};
    }
  }

  /** A reset closes each plan it replaces exactly once and no other; in particular not the dropped ones. */
  lemma ClosedExactlyOnce(w: World, f: Fetch)
    requires Inv(w) && !ResetPlans(w, f).crashed
    ensures multiset(ResetPlans(w, f).w.closed) == multiset(w.closed) + multiset(Replaced(w, f, f.ks))
  {
    var v := DropMissing(w, f.ks);
    ClosesReplaced(v, f, f.ks);
    assert Replaced(v, f, f.ks) == Replaced(w, f, f.ks);
  }

  /** A plan that left the map without being closed. */
  predicate Abandoned(w: World, p: nat) {
    p < w.next && p !in w.closed && forall k | k in w.plans :: w.plans[k].id != p
  }

  lemma {:induction false} AbandonedStaysInAll(w: World, f: Fetch, ks: seq<string>, p: nat)
    requires Abandoned(w, p)
    ensures Abandoned(ResetAll(w, f, ks).w, p)
    decreases |ks|
  {
    if ks != [] {
      AbandonedStaysInAll(w, f, ks[..|ks| - 1], p);
    }
  }

  lemma {:induction false} AbandonedStays(w: World, fs: seq<Fetch>, p: nat)
    requires Abandoned(w, p)
    ensures Abandoned(Resets(w, fs).w, p)
    decreases |fs|
  {
    if fs != [] {
      AbandonedStays(w, fs[..|fs| - 1], p);
      var before, f := Resets(w, fs[..|fs| - 1]).w, fs[|fs| - 1];
      AbandonedStaysInAll(DropMissing(before, f.ks), f, f.ks, p);
    }
  }

  /** A plan whose script is gone from the list is never closed, whatever is fetched later. */
  lemma DroppedIsNeverClosed(w: World, k: string, f: Fetch, later: seq<Fetch>)
    requires Inv(w) && k in w.plans && k !in f.ks && !ResetPlans(w, f).crashed
    ensures w.plans[k].id !in Resets(ResetPlans(w, f).w, later).w.closed
  {
    assert Abandoned(DropMissing(w, f.ks), w.plans[k].id);
    AbandonedStaysInAll(DropMissing(w, f.ks), f, f.ks, w.plans[k].id);
    AbandonedStays(ResetPlans(w, f).w, later, w.plans[k].id);
  }

  // ---------------------------------------------------------------- the state object

  class PrivateState {
    var planMap: map<string, PlanData>
    /** The calls of `Close` and `NewScriptPlan` so far. */
    var closed: seq<nat>
    var next: nat

    function View(): World
      reads this
    {
      World(planMap, closed, next)
    }

    constructor ()
      ensures View() == World(map[], [], 0) && Inv(View())
    {
      planMap, closed, next := map[], [], 0;
    }

    method ResetScriptPlan(f: Fetch) returns (crashed: bool)
      modifies this
      ensures Reset(View(), crashed) == ResetPlans(old(View()), f)
      ensures Inv(old(View())) ==> Inv(View())
    {
      ghost var start := DropMissing(View(), f.ks);
      if Inv(View()) {
        AllKeepInv(start, f, f.ks);
      }
      DropUnlisted(f.ks);
      for i := 0 to |f.ks|
        invariant ResetAll(start, f, f.ks[..i]) == Reset(View(), false)
      {
        NextKey(start, f, f.ks, i);
        crashed := ResetKey(f, f.ks[i]);
        if crashed {
          return;
        }
      }
      assert f.ks[..|f.ks|] == f.ks;
      crashed := false;
    }

    method DropUnlisted(ks: seq<string>)
      modifies `planMap
      ensures View() == DropMissing(old(View()), ks)
    {
      var left := planMap.Keys;
      while left != {}
        invariant left <= planMap.Keys <= old(planMap.Keys)
        invariant forall k | k in old(planMap) :: k in planMap <==> k in left || k in ks
        invariant forall k | k in planMap :: planMap[k] == old(planMap)[k]
        decreases |left|
      {
        var k :| k in left;
        left := left - {k};
        if k !in ks {
          planMap := planMap - {k};
        }
      }
    }

    method ResetKey(f: Fetch, k: string) returns (crashed: bool)
      modifies this
      ensures Reset(View(), crashed) == ResetOne(old(View()), f, k)
    {
      var data := Fetched(f, k);
      if k in planMap {
        if planMap[k].hash == data.hash {
          return false;
        }
        closed := closed + [planMap[k].id];
        planMap := planMap - {k};
      }
      if data.option.None? {
        return true;
      }
      planMap := planMap[k := PlanData(data.hash, next, data)];
      next := next + 1;
      crashed := false;
    }
  }

  /** One name more; if it crashes that is the result of the whole loop. */
  lemma NextKey(w: World, f: Fetch, ks: seq<string>, i: nat)
    requires i < |ks| && !ResetAll(w, f, ks[..i]).crashed
    ensures var next := ResetOne(ResetAll(w, f, ks[..i]).w, f, ks[i]);
      ResetAll(w, f, ks[..i + 1]) == next && (next.crashed ==> ResetAll(w, f, ks) == next)
  {
    assert ks[..i + 1][..i] == ks[..i];
    if ResetAll(w, f, ks[..i + 1]).crashed {
      CrashIsFinal(w, f, ks, i + 1);
    }
  }

  lemma {:induction false} CrashIsFinal(w: World, f: Fetch, ks: seq<string>, n: nat)
    requires n <= |ks| && ResetAll(w, f, ks[..n]).crashed
    ensures ResetAll(w, f, ks) == ResetAll(w, f, ks[..n])
    decreases |ks|
  {
    if n == |ks| {
      assert ks[..n] == ks;
    } else {
      assert ks[..|ks| - 1][..n] == ks[..n];
      CrashIsFinal(w, f, ks[..|ks| - 1], n);
    }
  }
}
