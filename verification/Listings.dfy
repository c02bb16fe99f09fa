/** Lists without repetition, and the orders in which Go may visit the keys of a map. */
module Listings {
  predicate Distinct(s: seq<string>) {
    forall i, j | 0 <= i < j < |s| :: s[i] != s[j]
  }

  function Elems(s: seq<string>): set<string> {
    set x | x in s
  }

  ghost predicate IsListing(order: seq<string>, keys: set<string>) {
    Distinct(order) && forall k :: k in order <==> k in keys
  }

  lemma LastIsNew(s: seq<string>)
    requires s != []
    ensures forall x :: x in s <==> x in s[..|s| - 1] || x == s[|s| - 1]
    ensures Elems(s) == Elems(s[..|s| - 1]) + {s[|s| - 1]}
    ensures Distinct(s) ==> Distinct(s[..|s| - 1]) && s[|s| - 1] !in s[..|s| - 1]
  {}

  /** The elements of `s` that are in `keep`, in order. */
  function Chosen(s: seq<string>, keep: set<string>): seq<string> {
    if s == [] then [] else (if s[0] in keep then [s[0]] else []) + Chosen(s[1..], keep)
  }

  lemma {:induction false} ChosenInTwo(s: seq<string>, keep: set<string>, n: nat)
    requires n <= |s|
    ensures Chosen(s, keep) == Chosen(s[..n], keep) + Chosen(s[n..], keep)
    decreases n
  {
    if n == 0 {
      assert s[0..] == s;
    } else {
      ChosenInTwo(s[1..], keep, n - 1);
      assert s[..n][1..] == s[1..][..n - 1] && s[1..][n - 1..] == s[n..];
    }
  }

  lemma {:induction false} ChosenElems(s: seq<string>, keep: set<string>)
    ensures forall x :: x in Chosen(s, keep) <==> x in s && x in keep
    ensures Distinct(s) ==> Distinct(Chosen(s, keep))
    decreases |s|
  {
    if s != [] {
      ChosenElems(s[1..], keep);
      assert forall x :: x in s <==> x == s[0] || x in s[1..];
    }
  }

  lemma ChosenLast(s: seq<string>, keep: set<string>)
    requires s != []
    ensures Chosen(s, keep) == Chosen(s[..|s| - 1], keep) + if s[|s| - 1] in keep then [s[|s| - 1]] else []
  {
    ChosenInTwo(s, keep, |s| - 1);
    assert s[|s| - 1..] == [s[|s| - 1]];
  }

  /** Every set of keys can be visited, and any of them can come last or first. */
  lemma {:induction false} ListingOf(keys: set<string>) returns (order: seq<string>)
    ensures IsListing(order, keys)
    decreases |keys|
  {
    order := [];
    if keys != {} {
      var k :| k in keys;
      order := ListingEndingIn(keys, k);
    }
  }

  lemma {:induction false} ListingEndingIn(keys: set<string>, k: string) returns (order: seq<string>)
    requires k in keys
    ensures IsListing(order, keys) && order != [] && order[|order| - 1] == k
    decreases |keys|, 0
  {
    var rest := ListingOf(keys - {k});
    order := rest + [k];
  }

  lemma ListingStartingWith(keys: set<string>, k: string) returns (order: seq<string>)
    requires k in keys
    ensures IsListing(order, keys) && order != [] && order[0] == k
  {
    var rest := ListingOf(keys - {k});
    order := [k] + rest;
  }
}
