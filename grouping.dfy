/** What one run of the grouping heuristic computes, stated as functions of its inputs:
    the cost of adding a participant to a group, the two-pass choice of a group, the
    greedy placement of the non-seed participants and the whole run. The lemmas state
    what the run promises: a partition of the participants into exactly `numGroups`
    groups whose sizes differ by at most one, each headed by its seed. */
module Grouping {
  import opened Wrappers
  import opened Collections
  import opened Interactions
  import opened Edges

  /** The only way a run fails: the edge supply runs dry before `numGroups` seeds are found. */
  datatype RunError = Exhausted

  predicate GroupsInRange(gs: seq<seq<nat>>, n: nat) {
    forall g :: 0 <= g < |gs| ==> InRange(gs[g], n)
  }

  // ---------------------------------------------------------------------------
  // Cost of adding a participant to a group

  /** Sum of `adj[m][node]` over the members `m` of `group`, accumulated in member order. */
  function Cost(adj: seq<seq<int>>, group: seq<nat>, node: nat): int
    requires IsMatrix(adj) && InRange(group, |adj|) && node < |adj|
  {
    if group == [] then 0
    else Cost(adj, group[..|group| - 1], node) + adj[group[|group| - 1]][node]
  }

  /** With non-negative interaction counts, no group costs less than zero. */
  lemma {:induction false} CostNonNegative(adj: seq<seq<int>>, group: seq<nat>, node: nat)
    requires IsMatrix(adj) && InRange(group, |adj|) && node < |adj| && NonNegative(adj)
    ensures Cost(adj, group, node) >= 0
  {
    if group != [] {
      CostNonNegative(adj, group[..|group| - 1], node);
    }
  }

  /** The cost is additive over a split of the group, so it does not depend on how the
      members were accumulated. */
  lemma {:induction false} CostConcat(adj: seq<seq<int>>, s: seq<nat>, t: seq<nat>, node: nat)
    requires IsMatrix(adj) && InRange(s, |adj|) && InRange(t, |adj|) && node < |adj|
    ensures InRange(s + t, |adj|)
    ensures Cost(adj, s + t, node) == Cost(adj, s, node) + Cost(adj, t, node)
  {
    if t != [] {
      var init := t[..|t| - 1];
      CostConcat(adj, s, init, node);
      assert (s + t)[..|s + t| - 1] == s + init;
    } else {
      assert s + t == s;
    }
  }

  // ---------------------------------------------------------------------------
  // Choosing a group: two passes of the same cheapest-first scan

  predicate HasGroupBelow(gs: seq<seq<nat>>, cap: nat) {
    exists g :: 0 <= g < |gs| && |gs[g]| < cap
  }

  /** The scan over the first `i` groups that keeps the cheapest group with fewer than `cap`
      members; only a strictly cheaper group replaces the current choice. */
  function ScanBest(adj: seq<seq<int>>, gs: seq<seq<nat>>, node: nat, cap: nat, i: nat): (r: Option<nat>)
    requires IsMatrix(adj) && GroupsInRange(gs, |adj|) && node < |adj| && i <= |gs|
    ensures r.Some? ==> r.value < i && |gs[r.value]| < cap
  {
    if i == 0 then None
    else
      var prev := ScanBest(adj, gs, node, cap, i - 1);
      if |gs[i - 1]| < cap
         && (prev.None? || Cost(adj, gs[i - 1], node) < Cost(adj, gs[prev.value], node))
      then Some(i - 1)
      else prev
  }

  /** `r` is a group among the first `i` with fewer than `cap` members, no such group is
      cheaper, and every earlier such group is strictly dearer (ties go to the lowest index). */
  predicate Cheapest(adj: seq<seq<int>>, gs: seq<seq<nat>>, node: nat, cap: nat, i: nat, r: nat)
    requires IsMatrix(adj) && GroupsInRange(gs, |adj|) && node < |adj| && i <= |gs|
  {
    r < i && |gs[r]| < cap
    && forall j :: 0 <= j < i && |gs[j]| < cap ==>
         Cost(adj, gs[r], node) <= Cost(adj, gs[j], node)
         && (j < r ==> Cost(adj, gs[r], node) < Cost(adj, gs[j], node))
  }

  /** The scan finds nothing exactly when no group qualifies, and otherwise finds the
      cheapest qualifying group with the lowest index. */
  lemma {:induction false} ScanBestSpec(adj: seq<seq<int>>, gs: seq<seq<nat>>, node: nat, cap: nat, i: nat)
    requires IsMatrix(adj) && GroupsInRange(gs, |adj|) && node < |adj| && i <= |gs|
    ensures ScanBest(adj, gs, node, cap, i).None? <==> forall j :: 0 <= j < i ==> |gs[j]| >= cap
    ensures ScanBest(adj, gs, node, cap, i).Some? ==>
              Cheapest(adj, gs, node, cap, i, ScanBest(adj, gs, node, cap, i).value)
  {
    if i > 0 {
      ScanBestSpec(adj, gs, node, cap, i - 1);
    }
  }

  /** The group `addToGroupToMinimizeCost` returns: the first pass looks at groups below
      `groupSize`, the second pass (only when the first found none) at groups below
      `groupSize + 1`, and index 0 is the answer when neither finds one. */
  function ChooseGroup(adj: seq<seq<int>>, gs: seq<seq<nat>>, node: nat, groupSize: nat): (r: nat)
    requires IsMatrix(adj) && GroupsInRange(gs, |adj|) && node < |adj|
    ensures |gs| > 0 ==> r < |gs|
  {
    match ScanBest(adj, gs, node, groupSize, |gs|)
    case Some(r) => r
    case None =>
      match ScanBest(adj, gs, node, groupSize + 1, |gs|)
      case Some(r) => r
      case None => 0
  }

  lemma {:induction false} ChooseGroupSpec(adj: seq<seq<int>>, gs: seq<seq<nat>>, node: nat, groupSize: nat)
    requires IsMatrix(adj) && GroupsInRange(gs, |adj|) && node < |adj|
    ensures HasGroupBelow(gs, groupSize) ==>
              Cheapest(adj, gs, node, groupSize, |gs|, ChooseGroup(adj, gs, node, groupSize))
    ensures !HasGroupBelow(gs, groupSize) && HasGroupBelow(gs, groupSize + 1) ==>
              Cheapest(adj, gs, node, groupSize + 1, |gs|, ChooseGroup(adj, gs, node, groupSize))
    ensures !HasGroupBelow(gs, groupSize + 1) ==> ChooseGroup(adj, gs, node, groupSize) == 0
  {
    ScanBestSpec(adj, gs, node, groupSize, |gs|);
    ScanBestSpec(adj, gs, node, groupSize + 1, |gs|);
  }

  // ---------------------------------------------------------------------------
  // Greedy placement of the remaining participants

  /** Places `rest` one participant at a time, each appended to the group `ChooseGroup` picks
      given the groups as they are at that moment. */
  function Assign(adj: seq<seq<int>>, gs: seq<seq<nat>>, rest: seq<nat>, groupSize: nat): (r: seq<seq<nat>>)
    requires IsMatrix(adj) && GroupsInRange(gs, |adj|) && InRange(rest, |adj|) && |gs| > 0
    ensures |r| == |gs| && GroupsInRange(r, |adj|)
    decreases |rest|
  {
    if rest == [] then gs
    else
      var c := ChooseGroup(adj, gs, rest[0], groupSize);
      Assign(adj, gs[c := gs[c] + [rest[0]]], rest[1..], groupSize)
  }

  /** Placement only adds: every participant of `rest` lands in exactly one group. */
  lemma {:induction false} AssignMultiset(adj: seq<seq<int>>, gs: seq<seq<nat>>, rest: seq<nat>, groupSize: nat)
    requires IsMatrix(adj) && GroupsInRange(gs, |adj|) && InRange(rest, |adj|) && |gs| > 0
    ensures multiset(Flatten(Assign(adj, gs, rest, groupSize))) == multiset(Flatten(gs)) + multiset(rest)
    decreases |rest|
  {
    if rest != [] {
      var c := ChooseGroup(adj, gs, rest[0], groupSize);
      PlaceInRange(gs, c, rest[0], |adj|);
      AssignMultiset(adj, gs[c := gs[c] + [rest[0]]], rest[1..], groupSize);
      PlaceMultiset(gs, c, rest);
    }
  }

  /** Placing a participant in range keeps every group in range. */
  lemma {:induction false} PlaceInRange(gs: seq<seq<nat>>, c: nat, x: nat, n: nat)
    requires GroupsInRange(gs, n) && c < |gs| && x < n
    ensures GroupsInRange(gs[c := gs[c] + [x]], n)
  {
  }

  /** Moving the first participant still to place into a group preserves the combined
      multiset of placed and unplaced participants. */
  lemma {:induction false} PlaceMultiset(gs: seq<seq<nat>>, c: nat, rest: seq<nat>)
    requires c < |gs| && rest != []
    ensures multiset(Flatten(gs[c := gs[c] + [rest[0]]])) + multiset(rest[1..])
            == multiset(Flatten(gs)) + multiset(rest)
  {
    FlattenPlace(gs, c, rest[0]);
    assert rest == [rest[0]] + rest[1..];
  }

  /** Placement appends, so each group keeps its first member (its seed). */
  lemma {:induction false} AssignKeepsHeads(adj: seq<seq<int>>, gs: seq<seq<nat>>, rest: seq<nat>, groupSize: nat)
    requires IsMatrix(adj) && GroupsInRange(gs, |adj|) && InRange(rest, |adj|) && |gs| > 0
    requires forall g :: 0 <= g < |gs| ==> |gs[g]| > 0
    ensures forall g :: 0 <= g < |gs| ==>
              |Assign(adj, gs, rest, groupSize)[g]| > 0 && Assign(adj, gs, rest, groupSize)[g][0] == gs[g][0]
    decreases |rest|
  {
    if rest != [] {
      var c := ChooseGroup(adj, gs, rest[0], groupSize);
      AssignKeepsHeads(adj, gs[c := gs[c] + [rest[0]]], rest[1..], groupSize);
    }
  }

  // ---------------------------------------------------------------------------
  // Group sizes

  /** The size invariant of the placement loop: no group exceeds `q + 1`, and while some
      group is still below `q`, none has exceeded `q`. */
  predicate Balanced(gs: seq<seq<nat>>, q: nat) {
    (forall g :: 0 <= g < |gs| ==> |gs[g]| <= q + 1)
    && (HasGroupBelow(gs, q) ==> forall g :: 0 <= g < |gs| ==> |gs[g]| <= q)
  }

  lemma {:induction false} SizeSumUpper(gs: seq<seq<nat>>, c: nat)
    requires forall g :: 0 <= g < |gs| ==> |gs[g]| <= c
    ensures |Flatten(gs)| <= |gs| * c
    ensures HasGroupBelow(gs, c) ==> |Flatten(gs)| < |gs| * c
  {
    if gs != [] {
      SizeSumUpper(gs[1..], c);
      assert |gs| * c == c + |gs[1..]| * c;
      if HasGroupBelow(gs, c) && |gs[0]| >= c {
        var g :| 0 <= g < |gs| && |gs[g]| < c;
        assert |gs[1..][g - 1]| < c;
      }
    }
  }

  lemma {:induction false} SizeSumLower(gs: seq<seq<nat>>, c: nat)
    requires forall g :: 0 <= g < |gs| ==> |gs[g]| >= c
    ensures |Flatten(gs)| >= |gs| * c
  {
    if gs != [] {
      SizeSumLower(gs[1..], c);
      assert |gs| * c == c + |gs[1..]| * c;
    }
  }

  /** Number of groups with exactly `size` members. */
  function CountOfSize(gs: seq<seq<nat>>, size: int): nat {
    if gs == [] then 0 else (if |gs[0]| == size then 1 else 0) + CountOfSize(gs[1..], size)
  }

  /** When every group has `q` or `q + 1` members, the total exceeds `|gs| * q` by the
      number of larger groups. */
  lemma {:induction false} SizeSumTwoSizes(gs: seq<seq<nat>>, q: nat)
    requires forall g :: 0 <= g < |gs| ==> q <= |gs[g]| <= q + 1
    ensures |Flatten(gs)| == |gs| * q + CountOfSize(gs, q + 1)
  {
    if gs != [] {
      SizeSumTwoSizes(gs[1..], q);
      assert |gs| * q == q + |gs[1..]| * q;
    }
  }

  /** Some group still has room below `q + 1` while fewer than `|gs| * (q + 1)` are placed. */
  lemma {:induction false} RoomLeft(gs: seq<seq<nat>>, q: nat)
    requires |Flatten(gs)| < |gs| * (q + 1)
    ensures HasGroupBelow(gs, q + 1)
  {
    if !HasGroupBelow(gs, q + 1) {
      SizeSumLower(gs, q + 1);
    }
  }

  /** The greedy choice lands in a group below `q` whenever one exists, and below `q + 1`
      otherwise. */
  lemma {:induction false} ChosenHasRoom(adj: seq<seq<int>>, gs: seq<seq<nat>>, node: nat, q: nat)
    requires IsMatrix(adj) && GroupsInRange(gs, |adj|) && node < |adj|
    requires HasGroupBelow(gs, q + 1)
    ensures var c := ChooseGroup(adj, gs, node, q);
            c < |gs| && |gs[c]| < q + 1 && (HasGroupBelow(gs, q) ==> |gs[c]| < q)
  {
    ChooseGroupSpec(adj, gs, node, q);
  }

  /** Growing a group that has room keeps the size invariant. */
  lemma {:induction false} GrowBalanced(gs: seq<seq<nat>>, c: nat, x: nat, q: nat)
    requires c < |gs| && Balanced(gs, q)
    requires |gs[c]| < q + 1 && (HasGroupBelow(gs, q) ==> |gs[c]| < q)
    ensures Balanced(gs[c := gs[c] + [x]], q)
  {
    var next := gs[c := gs[c] + [x]];
    if !HasGroupBelow(gs, q) {
      assert !HasGroupBelow(next, q) by {
        forall g | 0 <= g < |next|
          ensures |next[g]| >= q
        {
          if g != c {
            assert |gs[g]| >= q;
          }
        }
      }
    }
  }

  /** One greedy placement keeps the size invariant when the groups are not all full. */
  lemma {:induction false} PlaceBalanced(adj: seq<seq<int>>, gs: seq<seq<nat>>, node: nat, q: nat)
    requires IsMatrix(adj) && GroupsInRange(gs, |adj|) && node < |adj|
    requires Balanced(gs, q) && |Flatten(gs)| < |gs| * (q + 1)
    ensures var c := ChooseGroup(adj, gs, node, q);
            var next := gs[c := gs[c] + [node]];
            Balanced(next, q) && |Flatten(next)| == |Flatten(gs)| + 1
  {
    var c := ChooseGroup(adj, gs, node, q);
    RoomLeft(gs, q);
    ChosenHasRoom(adj, gs, node, q);
    GrowBalanced(gs, c, node, q);
    PlaceLength(gs, c, node);
  }

  /** Placing one participant adds exactly one entry to the flattened groups. */
  lemma {:induction false} PlaceLength(gs: seq<seq<nat>>, c: nat, x: nat)
    requires c < |gs|
    ensures |Flatten(gs[c := gs[c] + [x]])| == |Flatten(gs)| + 1
  {
    var next := gs[c := gs[c] + [x]];
    FlattenPlace(gs, c, x);
    assert |Flatten(next)| == |multiset(Flatten(next))|;
    assert |Flatten(gs)| == |multiset(Flatten(gs))|;
  }

  /** Each greedy placement keeps the size invariant, provided the participants still to be
      placed fit below `q + 1` per group. */
  lemma {:induction false} AssignBalanced(adj: seq<seq<int>>, gs: seq<seq<nat>>, rest: seq<nat>, q: nat)
    requires IsMatrix(adj) && GroupsInRange(gs, |adj|) && InRange(rest, |adj|) && |gs| > 0
    requires Balanced(gs, q) && |Flatten(gs)| + |rest| <= |gs| * (q + 1)
    ensures Balanced(Assign(adj, gs, rest, q), q)
    decreases |rest|
  {
    if rest != [] {
      var c := ChooseGroup(adj, gs, rest[0], q);
      PlaceBalanced(adj, gs, rest[0], q);
      AssignBalanced(adj, gs[c := gs[c] + [rest[0]]], rest[1..], q);
    }
  }

  /** Once everybody is placed, the invariant and the total leave only sizes `q` and `q + 1`. */
  lemma {:induction false} BalancedSizes(gs: seq<seq<nat>>, q: nat, total: nat)
    requires Balanced(gs, q) && |Flatten(gs)| == total && |gs| * q <= total
    ensures forall g :: 0 <= g < |gs| ==> q <= |gs[g]| <= q + 1
  {
    if HasGroupBelow(gs, q) {
      SizeSumUpper(gs, q);
      assert false;
    }
  }

  /** `Math.floor(n / k)` for a positive `k`: the largest `q` with `k * q <= n`. */
  function Quotient(n: nat, k: nat): (q: nat)
    requires k > 0
    ensures k * q <= n < k * (q + 1)
  {
    n / k
  }

  /** What the division of `n` by `k` leaves over: `n - k * floor(n / k)`. */
  function Leftover(n: nat, k: nat): (r: nat)
    requires k > 0
    ensures r < k
  {
    n - k * Quotient(n, k)
  }

  // ---------------------------------------------------------------------------
  // Partitions

  /** Every index `0..n-1` occurs exactly once across all groups, and nothing else occurs. */
  predicate IsPartition(gs: seq<seq<nat>>, n: nat) {
    multiset(Flatten(gs)) == multiset(Range(n))
  }

  predicate SameGroup(gs: seq<seq<nat>>, x: nat, y: nat) {
    exists g :: 0 <= g < |gs| && x in gs[g] && y in gs[g]
  }

  /** In a partition each participant is in some group, in one group only, and only
      participants are in groups. */
  lemma {:induction false} PartitionExactlyOneGroup(gs: seq<seq<nat>>, n: nat, x: nat)
    requires IsPartition(gs, n)
    ensures x < n <==> exists g :: 0 <= g < |gs| && x in gs[g]
    ensures forall g1, g2 :: 0 <= g1 < |gs| && 0 <= g2 < |gs| && x in gs[g1] && x in gs[g2] ==> g1 == g2
  {
    RangeCount(n);
    FlattenMember(gs, x);
    assert x in Flatten(gs) <==> x in multiset(Range(n));
    forall g1, g2 | 0 <= g1 < |gs| && 0 <= g2 < |gs| && x in gs[g1] && x in gs[g2]
      ensures g1 == g2
    {
      if g1 < g2 {
        FlattenTwoGroups(gs, g1, g2, x);
      } else if g2 < g1 {
        FlattenTwoGroups(gs, g2, g1, x);
      }
    }
  }

  lemma {:induction false} PartitionNoDup(gs: seq<seq<nat>>, n: nat)
    requires IsPartition(gs, n)
    ensures NoDup(Flatten(gs))
  {
    RangeCount(n);
    NoDupIffCountsAtMostOne(Flatten(gs));
  }

  // ---------------------------------------------------------------------------
  // The whole run

  /** Seed selection after `i` edges, collecting up to `k` seeds: `tmp` is a prefix of the
      distinct endpoints seen so far, and all of them while seeds are still missing. */
  ghost predicate SeedState(edges: seq<Edge>, i: nat, k: nat, tmp: seq<nat>)
    requires i <= |edges|
  {
    |tmp| <= k && tmp <= Distinct(Endpoints(edges[..i]))
    && (|tmp| < k ==> tmp == Distinct(Endpoints(edges[..i])))
  }

  /** Taking `node1` when new, then `node2` when new and a seed is still missing, moves
      seed selection on by one edge. */
  lemma {:induction false} SeedStep(edges: seq<Edge>, i: nat, k: nat, tmp: seq<nat>)
    requires i < |edges| && SeedState(edges, i, k, tmp) && |tmp| < k
    ensures var e := edges[i];
            var t1 := if e.node1 in tmp then tmp else tmp + [e.node1];
            var t2 := if e.node2 !in t1 && |t1| < k then t1 + [e.node2] else t1;
            SeedState(edges, i + 1, k, t2)
  {
    var e := edges[i];
    var before := Endpoints(edges[..i]);
    EndpointsSnoc(edges, i);
    DistinctSnoc(before, e.node1);
    DistinctSnoc(before + [e.node1], e.node2);
    assert before + [e.node1, e.node2] == before + [e.node1] + [e.node2];
  }

  /** When the loop stops with `k` seeds, they are the first `k` distinct endpoints of all
      edges, pairwise distinct participant indices, and the participants left over are the
      ascending list of all the others. */
  lemma {:induction false} SeedDone(edges: seq<Edge>, n: nat, i: nat, k: nat, tmp: seq<nat>)
    requires EdgesInRange(edges, n) && i <= |edges| && SeedState(edges, i, k, tmp) && |tmp| == k
    ensures k <= |Distinct(Endpoints(edges))| && tmp == Distinct(Endpoints(edges))[..k]
    ensures NoDup(tmp) && InRange(tmp, n)
    ensures var rest := Remaining(n, tmp);
            && InRange(rest, n) && StrictlyAscending(rest)
            && (forall y: nat :: y in rest <==> y < n && y !in tmp)
  {
    DistinctOfPrefix(edges, i);
    var order := Distinct(Endpoints(edges));
    assert tmp == order[..k];
    SeedSplit(edges, n, k);
    SeedOrderInRange(edges, n);
    assert InRange(tmp, n) by {
      forall t | 0 <= t < k ensures tmp[t] < n {
        assert tmp[t] == order[t];
      }
    }
    RemainingComplement(n, tmp);
  }

  /** The seeds and the remaining participants that seed selection leaves behind are
      participant indices, and together they name every participant exactly once. */
  lemma {:induction false} SeedSplit(edges: seq<Edge>, n: nat, k: nat)
    requires EdgesInRange(edges, n) && k <= |Distinct(Endpoints(edges))|
    ensures var seeds := Distinct(Endpoints(edges))[..k];
            && NoDup(seeds) && GroupsInRange(Singletons(seeds), n)
            && InRange(Remaining(n, seeds), n)
            && multiset(seeds) + multiset(Remaining(n, seeds)) == multiset(Range(n))
  {
    var order := Distinct(Endpoints(edges));
    SeedOrderInRange(edges, n);
    var seeds := order[..k];
    assert NoDup(seeds);
    RemainingComplement(n, seeds);
    var rest := Remaining(n, seeds);
    forall i | 0 <= i < |rest| ensures rest[i] < n {
      assert rest[i] in rest;
    }
  }

  /** What `run` returns for `numGroups` groups over the matrix `adj` when seed selection
      draws from `edges`: the seeds are the first `numGroups` distinct endpoints in drawing
      order, each heading its own group, and the other participants are placed greedily in
      ascending index order. */
  function RunGrouping(adj: seq<seq<int>>, edges: seq<Edge>, numGroups: nat): Result<seq<seq<nat>>, RunError>
    requires IsMatrix(adj) && EdgesInRange(edges, |adj|) && numGroups >= 1
  {
    var order := Distinct(Endpoints(edges));
    if |order| < numGroups then Failure(Exhausted)
    else
      SeedSplit(edges, |adj|, numGroups);
      var seeds := order[..numGroups];
      Success(Assign(adj, Singletons(seeds), Remaining(|adj|, seeds), Quotient(|adj|, numGroups)))
  }

  /** A successful run yields exactly `numGroups` groups that partition the participants,
      each group headed by its seed (the seeds in drawing order), every group of size `q` or
      `q + 1` for `q` the floor of `n / numGroups`, and exactly `n - numGroups * q` (the
      remainder) groups of the larger size. */
  lemma {:induction false} GroupingCorrect(adj: seq<seq<int>>, edges: seq<Edge>, numGroups: nat)
    requires IsMatrix(adj) && EdgesInRange(edges, |adj|) && numGroups >= 1
    requires RunGrouping(adj, edges, numGroups).Success?
    ensures |RunGrouping(adj, edges, numGroups).value| == numGroups
    ensures IsPartition(RunGrouping(adj, edges, numGroups).value, |adj|)
    ensures var gs, q := RunGrouping(adj, edges, numGroups).value, Quotient(|adj|, numGroups);
            forall g :: 0 <= g < |gs| ==> q <= |gs[g]| <= q + 1
    ensures var gs, q := RunGrouping(adj, edges, numGroups).value, Quotient(|adj|, numGroups);
            CountOfSize(gs, q + 1) == Leftover(|adj|, numGroups)
    ensures var gs := RunGrouping(adj, edges, numGroups).value;
            forall g :: 0 <= g < |gs| ==> |gs[g]| > 0 && gs[g][0] == Distinct(Endpoints(edges))[g]
  {
    RunGroupingValue(adj, edges, numGroups);
    SeedSplit(edges, |adj|, numGroups);
    var seeds := Distinct(Endpoints(edges))[..numGroups];
    PlacementCorrect(adj, seeds, Remaining(|adj|, seeds), numGroups, Quotient(|adj|, numGroups),
                     RunGrouping(adj, edges, numGroups).value);
  }

  /** A run that does not run out of seeds yields the greedy placement around the first
      `numGroups` distinct endpoints. */
  lemma {:induction false} RunGroupingValue(adj: seq<seq<int>>, edges: seq<Edge>, numGroups: nat)
    requires IsMatrix(adj) && EdgesInRange(edges, |adj|) && numGroups >= 1
    requires RunGrouping(adj, edges, numGroups).Success?
    ensures numGroups <= |Distinct(Endpoints(edges))|
    ensures var seeds := Distinct(Endpoints(edges))[..numGroups];
            && GroupsInRange(Singletons(seeds), |adj|) && InRange(Remaining(|adj|, seeds), |adj|)
            && RunGrouping(adj, edges, numGroups).value
                 == Assign(adj, Singletons(seeds), Remaining(|adj|, seeds), Quotient(|adj|, numGroups))
  {
    SeedSplit(edges, |adj|, numGroups);
  }

  /** Seeding one group per seed and placing the others yields one group per seed that
      partitions the participants, keeps each seed at the head of its group and, with `q` the
      quotient of the participant count by the group count, has groups of `q` or `q + 1`
      members, the larger size exactly as often as the division leaves over. */
  lemma {:induction false} PlacementCorrect(adj: seq<seq<int>>, seeds: seq<nat>, rest: seq<nat>, k: nat, q: nat, gs: seq<seq<nat>>)
    requires IsMatrix(adj) && |seeds| > 0 && GroupsInRange(Singletons(seeds), |adj|) && InRange(rest, |adj|)
    requires multiset(seeds) + multiset(rest) == multiset(Range(|adj|))
    requires |seeds| == k && k * q <= |adj| < k * (q + 1)
    requires gs == Assign(adj, Singletons(seeds), rest, q)
    ensures |gs| == k
    ensures IsPartition(gs, |adj|)
    ensures forall g :: 0 <= g < |gs| ==> q <= |gs[g]| <= q + 1
    ensures CountOfSize(gs, q + 1) == |adj| - k * q
    ensures q == Quotient(|adj|, k) ==> CountOfSize(gs, q + 1) == Leftover(|adj|, k)
    ensures forall g :: 0 <= g < |gs| ==> |gs[g]| > 0 && gs[g][0] == seeds[g]
  {
    PlacementPartition(adj, seeds, rest, q);
    PlacementSizes(adj, seeds, rest, k, q);
    AssignKeepsHeads(adj, Singletons(seeds), rest, q);
  }

  /** Placing the non-seeds after the seeds covers every participant exactly once. */
  lemma {:induction false} PlacementPartition(adj: seq<seq<int>>, seeds: seq<nat>, rest: seq<nat>, q: nat)
    requires IsMatrix(adj) && |seeds| > 0 && GroupsInRange(Singletons(seeds), |adj|) && InRange(rest, |adj|)
    requires multiset(seeds) + multiset(rest) == multiset(Range(|adj|))
    ensures IsPartition(Assign(adj, Singletons(seeds), rest, q), |adj|)
  {
    AssignMultiset(adj, Singletons(seeds), rest, q);
    FlattenSingletons(seeds);
  }

  /** Placing the non-seeds after one seed per group, with `q` the quotient of the
      participant count by the group count, leaves groups of `q` or `q + 1` members, and
      the larger size exactly as often as the division leaves over. */
  lemma {:induction false} PlacementSizes(adj: seq<seq<int>>, seeds: seq<nat>, rest: seq<nat>, k: nat, q: nat)
    requires IsMatrix(adj) && |seeds| > 0 && GroupsInRange(Singletons(seeds), |adj|) && InRange(rest, |adj|)
    requires multiset(seeds) + multiset(rest) == multiset(Range(|adj|))
    requires |seeds| == k && k * q <= |adj| < k * (q + 1)
    ensures var gs := Assign(adj, Singletons(seeds), rest, q);
            && (forall g :: 0 <= g < |gs| ==> q <= |gs[g]| <= q + 1)
            && CountOfSize(gs, q + 1) == |adj| - k * q
  {
    var init := Singletons(seeds);
    var gs := Assign(adj, init, rest, q);
    PlacementTotal(adj, seeds, rest, q);
    AssignBalanced(adj, init, rest, q);
    BalancedSizes(gs, q, |adj|);
    SizeSumTwoSizes(gs, q);
  }

  /** Before and after placement, the groups and the participants still to place account
      for every participant once. */
  lemma {:induction false} PlacementTotal(adj: seq<seq<int>>, seeds: seq<nat>, rest: seq<nat>, q: nat)
    requires IsMatrix(adj) && |seeds| > 0 && GroupsInRange(Singletons(seeds), |adj|) && InRange(rest, |adj|)
    requires multiset(seeds) + multiset(rest) == multiset(Range(|adj|))
    ensures |Flatten(Singletons(seeds))| + |rest| == |adj|
    ensures |Flatten(Assign(adj, Singletons(seeds), rest, q))| == |adj|
  {
    var gs := Assign(adj, Singletons(seeds), rest, q);
    PlacementPartition(adj, seeds, rest, q);
    assert |Flatten(gs)| == |multiset(Flatten(gs))| == |multiset(Range(|adj|))| == |Range(|adj|)|;
    FlattenSingletons(seeds);
    assert |multiset(seeds) + multiset(rest)| == |seeds| + |rest|;
  }

  /** The two endpoints of the first edge drawn seed groups 0 and 1, so they are never
      grouped together. */
  lemma {:induction false} FirstEdgeSeparated(adj: seq<seq<int>>, edges: seq<Edge>, numGroups: nat)
    requires IsMatrix(adj) && EdgesInRange(edges, |adj|) && numGroups >= 2
    requires |edges| > 0 && edges[0].node1 != edges[0].node2
    requires RunGrouping(adj, edges, numGroups).Success?
    ensures var gs := RunGrouping(adj, edges, numGroups).value;
            && |gs| >= 2 && |gs[0]| > 0 && |gs[1]| > 0
            && gs[0][0] == edges[0].node1 && gs[1][0] == edges[0].node2
            && !SameGroup(gs, edges[0].node1, edges[0].node2)
  {
    FirstTwoSeeds(edges);
    GroupingCorrect(adj, edges, numGroups);
    HeadsApart(RunGrouping(adj, edges, numGroups).value, |adj|, edges[0].node1, edges[0].node2);
  }

  /** The two different endpoints of the first edge are the first two seeds. */
  lemma {:induction false} FirstTwoSeeds(edges: seq<Edge>)
    requires |edges| > 0 && edges[0].node1 != edges[0].node2
    ensures var order := Distinct(Endpoints(edges));
            |order| >= 2 && order[0] == edges[0].node1 && order[1] == edges[0].node2
  {
    var a, b := edges[0].node1, edges[0].node2;
    EndpointsSnoc(edges, 0);
    assert edges[..0] == [];
    DistinctSnoc([], a);
    DistinctSnoc([a], b);
    assert Distinct(Endpoints(edges[..1])) == [a, b];
    DistinctOfPrefix(edges, 1);
  }

  /** In a partition, the heads of the first two groups never share a group. */
  lemma {:induction false} HeadsApart(gs: seq<seq<nat>>, n: nat, a: nat, b: nat)
    requires IsPartition(gs, n) && |gs| >= 2 && |gs[0]| > 0 && |gs[1]| > 0
    requires gs[0][0] == a && gs[1][0] == b && a != b
    ensures !SameGroup(gs, a, b)
  {
    if SameGroup(gs, a, b) {
      var g :| 0 <= g < |gs| && a in gs[g] && b in gs[g];
      PartitionExactlyOneGroup(gs, n, a);
      PartitionExactlyOneGroup(gs, n, b);
      assert false;
    }
  }

  /** A full supply over two or more participants never runs dry for `numGroups <= n`. */
  lemma {:induction false} GroupingSucceedsOnFullSupply(adj: seq<seq<int>>, edges: seq<Edge>, numGroups: nat)
    requires IsSortedSupply(adj, edges) && 2 <= |adj| && 1 <= numGroups <= |adj|
    ensures RunGrouping(adj, edges, numGroups).Success?
  {
    CompleteSupplyCoversAll(adj, edges);
  }

  /** With a single participant the supply is empty and the run fails even for one group. */
  lemma {:induction false} GroupingFailsForSingleParticipant(adj: seq<seq<int>>, edges: seq<Edge>)
    requires IsSortedSupply(adj, edges) && |adj| == 1
    ensures RunGrouping(adj, edges, 1) == Failure(Exhausted)
  {
    SingleParticipantSupplyIsEmpty(adj, edges);
  }
}
