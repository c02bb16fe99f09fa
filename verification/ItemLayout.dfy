/** Where the items of a pool are: waiting in the channel, held by a caller, or closed. */
module ItemLayout {
  datatype Layout = Layout(queue: seq<nat>, held: map<nat, nat>, closed: seq<nat>, generated: nat)

  datatype Place = InQueue(k: nat) | HeldBy(t: nat) | ClosedAt(k: nat)

  predicate At(l: Layout, id: nat, p: Place) {
    match p
    case InQueue(k) => k < |l.queue| && l.queue[k] == id
    case HeldBy(t) => t in l.held && l.held[t] == id
    case ClosedAt(k) => k < |l.closed| && l.closed[k] == id
  }

  ghost predicate Somewhere(l: Layout, id: nat) {
    exists p :: At(l, id, p)
  }

  /** Every generated item is in exactly one place: no item is shared, closed twice, handed out after
      it was closed, or lost. */
  ghost predicate ExactlyOnePlace(l: Layout) {
    && (forall id: nat, p :: At(l, id, p) ==> id < l.generated)
    && (forall id: nat, p, q :: At(l, id, p) && At(l, id, q) ==> p == q)
    && (forall id: nat | id < l.generated :: Somewhere(l, id))
  }

  /** The moves an item can make. */
  lemma TakeFirst(l: Layout, t: nat)
    requires ExactlyOnePlace(l) && l.queue != [] && t !in l.held
    ensures ExactlyOnePlace(l.(queue := l.queue[1..], held := l.held[t := l.queue[0]]))
  {
    var m := l.(queue := l.queue[1..], held := l.held[t := l.queue[0]]);
    forall id: nat, p | At(m, id, p) ensures At(l, id, BeforeTake(p, t)) {}
    forall id: nat, p, q | At(m, id, p) && At(m, id, q) ensures p == q {
      assert At(l, id, BeforeTake(p, t)) && At(l, id, BeforeTake(q, t));
    }
    forall id: nat | id < m.generated ensures Somewhere(m, id) {
      assert Somewhere(l, id);
      var p :| At(l, id, p);
      var p' := if p == InQueue(0) then HeldBy(t) else if p.InQueue? then InQueue(p.k - 1) else p;
      assert At(m, id, p');
    }
  }

  function BeforeTake(p: Place, t: nat): Place {
    if p == HeldBy(t) then InQueue(0) else if p.InQueue? then InQueue(p.k + 1) else p
  }

  lemma Generate(l: Layout, t: nat)
    requires ExactlyOnePlace(l) && t !in l.held
    ensures ExactlyOnePlace(l.(held := l.held[t := l.generated], generated := l.generated + 1))
  {
    var m := l.(held := l.held[t := l.generated], generated := l.generated + 1);
    forall id: nat, p | At(m, id, p) ensures if id == l.generated then p == HeldBy(t) else At(l, id, p) {
      if p != HeldBy(t) { assert At(l, id, p); }
    }
    forall id: nat | id < m.generated ensures Somewhere(m, id) {
      if id == l.generated {
        assert At(m, id, HeldBy(t));
      } else {
        assert Somewhere(l, id);
        var p :| At(l, id, p);
        assert At(m, id, p);
      }
    }
  }

  lemma PutBack(l: Layout, t: nat)
    requires ExactlyOnePlace(l) && t in l.held
    ensures ExactlyOnePlace(l.(queue := l.queue + [l.held[t]], held := l.held - {t}))
  {
    var m := l.(queue := l.queue + [l.held[t]], held := l.held - {t});
    MoveFromCaller(l, m, t, InQueue(|l.queue|));
  }

  lemma CloseHeld(l: Layout, t: nat)
    requires ExactlyOnePlace(l) && t in l.held
    ensures ExactlyOnePlace(l.(closed := l.closed + [l.held[t]], held := l.held - {t}))
  {
    var m := l.(closed := l.closed + [l.held[t]], held := l.held - {t});
    MoveFromCaller(l, m, t, ClosedAt(|l.closed|));
  }

  /** The item of caller `t` moves to the new place `end`, everything else stays. */
  lemma MoveFromCaller(l: Layout, m: Layout, t: nat, end: Place)
    requires ExactlyOnePlace(l) && t in l.held && m.generated == l.generated
    requires forall id: nat :: !At(l, id, end)
    requires forall id: nat, p :: At(m, id, p) <==> if p == end then id == l.held[t] else p != HeldBy(t) && At(l, id, p)
    ensures ExactlyOnePlace(m)
  {
    assert At(l, l.held[t], HeldBy(t));
    forall id: nat, p | At(m, id, p) ensures At(l, id, if p == end then HeldBy(t) else p) {}
    forall id: nat, p, q | At(m, id, p) && At(m, id, q) ensures p == q {
      assert At(l, id, if p == end then HeldBy(t) else p) && At(l, id, if q == end then HeldBy(t) else q);
    }
    forall id: nat | id < m.generated ensures Somewhere(m, id) {
      assert Somewhere(l, id);
      var p :| At(l, id, p);
      assert At(m, id, if p == HeldBy(t) then end else p);
    }
  }

  lemma CloseFirst(l: Layout)
    requires ExactlyOnePlace(l) && l.queue != []
    ensures ExactlyOnePlace(l.(queue := l.queue[1..], closed := l.closed + [l.queue[0]]))
  {
    FreeCaller(l.held);
    var t: nat :| t !in l.held;
    var taken := l.(queue := l.queue[1..], held := l.held[t := l.queue[0]]);
    TakeFirst(l, t);
    CloseHeld(taken, t);
    assert taken.held - {t} == l.held;
  }

  lemma FreeCaller(held: map<nat, nat>)
    ensures exists t: nat :: t !in held
  {
    var bound := UpperBound(held.Keys);
    assert bound !in held;
  }

  ghost function UpperBound(s: set<nat>): (b: nat)
    ensures forall x | x in s :: x < b
  {
    if s == {} then 0
    else
      var x :| x in s;
      var b := UpperBound(s - {x});
      assert s == (s - {x}) + {x};
      if x < b then b else x + 1
  }

  /** An item is closed, and nowhere else, once it is on the record of closed items. */
  lemma ClosedIsFinal(l: Layout, id: nat)
    requires ExactlyOnePlace(l) && id in l.closed
    ensures id !in l.queue && id !in l.held.Values
  {
    var k :| 0 <= k < |l.closed| && l.closed[k] == id;
    assert At(l, id, ClosedAt(k));
    if id in l.queue {
      var j :| 0 <= j < |l.queue| && l.queue[j] == id;
      assert At(l, id, InQueue(j));
    }
    if id in l.held.Values {
      var t :| t in l.held && l.held[t] == id;
      assert At(l, id, HeldBy(t));
    }
  }
}
