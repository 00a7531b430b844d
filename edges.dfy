/** The edges that seed selection draws from a `SortedEdgeGenerator` built over the
    interaction matrix. The generator's own implementation is not part of this model: the
    run receives the edges it would hand out, in order, as a sequence, and drawing the
    `i`-th edge is reading `edges[i]`. `IsSortedSupply` states what the generator promises
    (every unordered pair of distinct participants once, heaviest first); the run itself
    relies only on the endpoints being participant indices. */
module Edges {
  import opened Collections
  import opened Interactions

  datatype Edge = Edge(node1: nat, node2: nat, weight: int)

  /** The endpoints in the order seed selection looks at them: `node1`, then `node2`, edge by edge. */
  function Endpoints(es: seq<Edge>): seq<nat> {
    if es == [] then [] else Endpoints(es[..|es| - 1]) + [es[|es| - 1].node1, es[|es| - 1].node2]
  }

  lemma {:induction false} EndpointsSnoc(es: seq<Edge>, i: nat)
    requires i < |es|
    ensures Endpoints(es[..i + 1]) == Endpoints(es[..i]) + [es[i].node1, es[i].node2]
  {
    assert es[..i + 1][..i] == es[..i];
  }

  /** `x` is an endpoint exactly when some edge touches it. */
  lemma {:induction false} EndpointsMember(es: seq<Edge>, x: nat)
    ensures x in Endpoints(es) <==> exists i :: 0 <= i < |es| && (es[i].node1 == x || es[i].node2 == x)
  {
    if es != [] {
      var init := es[..|es| - 1];
      EndpointsMember(init, x);
      if x in Endpoints(init) {
        var i :| 0 <= i < |init| && (init[i].node1 == x || init[i].node2 == x);
        assert es[i] == init[i];
      }
      if exists i :: 0 <= i < |es| && (es[i].node1 == x || es[i].node2 == x) {
        var i :| 0 <= i < |es| && (es[i].node1 == x || es[i].node2 == x);
        if i < |es| - 1 {
          assert init[i] == es[i];
        }
      }
    }
  }

  predicate EdgesInRange(es: seq<Edge>, n: nat) {
    forall i :: 0 <= i < |es| ==> es[i].node1 < n && es[i].node2 < n
  }

  /** The first-seen order of distinct endpoints only holds participant indices. */
  lemma {:induction false} SeedOrderInRange(es: seq<Edge>, n: nat)
    requires EdgesInRange(es, n)
    ensures InRange(Distinct(Endpoints(es)), n)
  {
    var d := Distinct(Endpoints(es));
    forall k | 0 <= k < |d| ensures d[k] < n {
      EndpointsMember(es, d[k]);
    }
  }

  predicate SamePair(e: Edge, a: nat, b: nat) {
    (e.node1 == a && e.node2 == b) || (e.node1 == b && e.node2 == a)
  }

  predicate Covers(es: seq<Edge>, a: nat, b: nat) {
    exists i :: 0 <= i < |es| && SamePair(es[i], a, b)
  }

  /** What a `SortedEdgeGenerator` over `adj` hands out: edges between distinct participants
      carrying their matrix weight, in non-increasing weight order, every unordered pair
      exactly once. */
  predicate IsSortedSupply(adj: seq<seq<int>>, es: seq<Edge>) {
    IsMatrix(adj) && EdgesInRange(es, |adj|)
    && (forall i :: 0 <= i < |es| ==>
          es[i].node1 != es[i].node2 && es[i].weight == adj[es[i].node1][es[i].node2])
    && (forall i, j :: 0 <= i < j < |es| ==> es[j].weight <= es[i].weight)
    && (forall i, j :: 0 <= i < j < |es| ==> !SamePair(es[j], es[i].node1, es[i].node2))
    && (forall a: nat, b: nat :: a < b < |adj| ==> Covers(es, a, b))
  }

  /** With two or more participants the full supply touches every participant, so seed
      selection can find as many distinct seeds as there are participants. */
  lemma {:induction false} CompleteSupplyCoversAll(adj: seq<seq<int>>, es: seq<Edge>)
    requires IsSortedSupply(adj, es) && |adj| >= 2
    ensures |Distinct(Endpoints(es))| == |adj|
  {
    var n: nat := |adj|;
    var d: seq<nat> := Distinct(Endpoints(es));
    NoDupCounts(d);
    RangeCount(n);
    forall x: nat ensures multiset(d)[x] == multiset(Range(n))[x] {
      EndpointsMember(es, x);
      if x < n {
        var other: nat := if x == 0 then 1 else 0;
        var a, b := if x < other then x else other, if x < other then other else x;
        assert Covers(es, a, b);
        var i :| 0 <= i < |es| && SamePair(es[i], a, b);
        assert x in d;
      } else {
        assert forall i :: 0 <= i < |es| ==> es[i].node1 != x && es[i].node2 != x;
      }
    }
    assert multiset(d) == multiset(Range(n));
    assert |d| == |multiset(d)|;
  }

  /** Any edge joins two different participants, so a non-empty supply needs two of them. */
  lemma {:induction false} SupplyNeedsTwo(adj: seq<seq<int>>, es: seq<Edge>)
    requires IsSortedSupply(adj, es) && es != []
    ensures |adj| >= 2
  {
    assert es[0].node1 != es[0].node2 && es[0].node1 < |adj| && es[0].node2 < |adj|;
  }

  /** With a single participant there is no pair, so the supply is empty and yields no seed. */
  lemma {:induction false} SingleParticipantSupplyIsEmpty(adj: seq<seq<int>>, es: seq<Edge>)
    requires IsSortedSupply(adj, es) && |adj| == 1
    ensures es == [] && Distinct(Endpoints(es)) == []
  {
    if es != [] {
      SupplyNeedsTwo(adj, es);
      assert false;
    }
  }

  /** The seeds found among the first `i` edges come first among those found in all of them. */
  lemma {:induction false} DistinctOfPrefix(es: seq<Edge>, i: nat)
    requires i <= |es|
    ensures Distinct(Endpoints(es[..i])) <= Distinct(Endpoints(es))
    decreases |es| - i
  {
    if i == |es| {
      assert es[..i] == es;
    } else {
      EndpointsSnoc(es, i);
      DistinctPrefix(Endpoints(es[..i]), [es[i].node1, es[i].node2]);
      DistinctOfPrefix(es, i + 1);
      var a, b, c := Distinct(Endpoints(es[..i])), Distinct(Endpoints(es[..i + 1])), Distinct(Endpoints(es));
      assert a == b[..|a|] && b == c[..|b|];
      assert a == c[..|a|];
    }
  }
}
