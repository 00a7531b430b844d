/** Feeding a grouping back into the interaction counts: every pair of members of the same
    group, taken in the order the nested loops visit them, is one `incrementInteractions`
    call. The lemmas count what those calls add to each matrix entry. */
module Feedback {
  import opened Collections
  import opened Interactions
  import opened Grouping

  /** The pairs `(x, s[0]), (x, s[1]), ...` the inner loop visits for a fixed first member `x`. */
  function RowPairs(x: nat, s: seq<nat>): (r: seq<(nat, nat)>)
    ensures |r| == |s|
    ensures forall t :: 0 <= t < |s| ==> r[t] == (x, s[t])
  {
    if s == [] then [] else [(x, s[0])] + RowPairs(x, s[1..])
  }

  /** The pairs `(s[i], s[j])` with `i < j`, in the order of the two nested loops over one group. */
  function GroupPairs(s: seq<nat>): seq<(nat, nat)> {
    if s == [] then [] else RowPairs(s[0], s[1..]) + GroupPairs(s[1..])
  }

  /** The pairs of every group, group after group. */
  function AllPairs(gs: seq<seq<nat>>): seq<(nat, nat)> {
    if gs == [] then [] else GroupPairs(gs[0]) + AllPairs(gs[1..])
  }

  /** The pairs of the first `i` rows of a group: those the two nested loops over `s` have
      visited once the outer index reaches `i`. */
  function RowsBefore(s: seq<nat>, i: nat): seq<(nat, nat)>
    requires i <= |s|
  {
    if i == 0 then [] else RowsBefore(s, i - 1) + RowPairs(s[i - 1], s[i..])
  }

  lemma {:induction false} AllPairsConcat(a: seq<seq<nat>>, b: seq<seq<nat>>)
    ensures AllPairs(a + b) == AllPairs(a) + AllPairs(b)
  {
    if a == [] {
      assert a + b == b;
    } else {
      assert (a + b)[1..] == a[1..] + b;
      AllPairsConcat(a[1..], b);
    }
  }

  /** The rows before `i` followed by the pairs of the rest of the group are all its pairs. */
  lemma {:induction false} GroupPairsSplit(s: seq<nat>, i: nat)
    requires i <= |s|
    ensures GroupPairs(s) == RowsBefore(s, i) + GroupPairs(s[i..])
  {
    if i == 0 {
      assert s[0..] == s;
    } else {
      GroupPairsSplit(s, i - 1);
      assert s[i - 1..][1..] == s[i..];
    }
  }

  /** The pairs of the groups before `g` and the rows of group `g` are the pairs of the
      first `g + 1` groups. */
  lemma {:induction false} GroupFinish(gs: seq<seq<nat>>, g: nat)
    requires g < |gs|
    ensures AllPairs(gs[..g]) + RowsBefore(gs[g], |gs[g]|) == AllPairs(gs[..g + 1])
  {
    GroupPairsSplit(gs[g], |gs[g]|);
    assert gs[g][|gs[g]|..] == [];
    assert gs[..g + 1] == gs[..g] + [gs[g]];
    AllPairsConcat(gs[..g], [gs[g]]);
    assert AllPairs([gs[g]]) == GroupPairs(gs[g]) + AllPairs([]);
  }

  /** Finishing row `i` of a group completes the rows before `i + 1`. */
  lemma {:induction false} RowFinish(before: seq<(nat, nat)>, s: seq<nat>, i: nat)
    requires i < |s|
    ensures before + RowsBefore(s, i) + RowPairs(s[i], s[i + 1..]) == before + RowsBefore(s, i + 1)
  {
  }

  /** `adj` after one increment per pair of `ps`, in order; a pair outside the matrix
      changes nothing. */
  function IncrementAll(adj: seq<seq<int>>, ps: seq<(nat, nat)>): (r: seq<seq<int>>)
    requires IsMatrix(adj)
    ensures IsMatrix(r) && |r| == |adj|
  {
    if ps == [] then adj
    else
      var m := IncrementAll(adj, ps[..|ps| - 1]);
      var p := ps[|ps| - 1];
      if p.0 < |adj| && p.1 < |adj| then Increment(m, p.0, p.1) else m
  }

  lemma {:induction false} IncrementAllSnoc(adj: seq<seq<int>>, ps: seq<(nat, nat)>, a: nat, b: nat)
    requires IsMatrix(adj) && a < |adj| && b < |adj|
    ensures IncrementAll(adj, ps + [(a, b)]) == Increment(IncrementAll(adj, ps), a, b)
  {
    assert (ps + [(a, b)])[..|ps|] == ps;
  }

  lemma {:induction false} RowPairsSnoc(x: nat, s: seq<nat>, a: nat, j: nat)
    requires a <= j < |s|
    ensures RowPairs(x, s[a..j + 1]) == RowPairs(x, s[a..j]) + [(x, s[j])]
  {
  }

  /** Visiting one more pair of a row is one more increment. */
  lemma {:induction false} RowStep(adj: seq<seq<int>>, done: seq<(nat, nat)>, x: nat, s: seq<nat>, a: nat, j: nat)
    requires IsMatrix(adj) && a <= j < |s| && x < |adj| && s[j] < |adj|
    ensures IncrementAll(adj, done + RowPairs(x, s[a..j + 1])) == Increment(IncrementAll(adj, done + RowPairs(x, s[a..j])), x, s[j])
  {
    RowPairsSnoc(x, s, a, j);
    assert done + RowPairs(x, s[a..j + 1]) == (done + RowPairs(x, s[a..j])) + [(x, s[j])];
    IncrementAllSnoc(adj, done + RowPairs(x, s[a..j]), x, s[j]);
  }

  predicate PairsInRange(ps: seq<(nat, nat)>, n: nat) {
    forall t :: 0 <= t < |ps| ==> ps[t].0 < n && ps[t].1 < n
  }

  /** Incrementing the pairs of `ps` adds to each entry exactly the hits of `ps` on it. */
  lemma {:induction false} IncrementAllHits(adj: seq<seq<int>>, ps: seq<(nat, nat)>)
    requires IsMatrix(adj) && PairsInRange(ps, |adj|)
    ensures forall x: nat, y: nat :: x < |adj| && y < |adj| ==>
              IncrementAll(adj, ps)[x][y] == adj[x][y] + Hits(ps, x, y)
  {
    if ps != [] {
      var init, p := ps[..|ps| - 1], ps[|ps| - 1];
      IncrementAllHits(adj, init);
      assert ps == init + [p];
      HitsSnoc(init, p);
      IncrementHit(IncrementAll(adj, init), p.0, p.1);
    }
  }

  lemma {:induction false} RowPairsInRange(x: nat, s: seq<nat>, n: nat)
    requires x < n && InRange(s, n)
    ensures PairsInRange(RowPairs(x, s), n)
  {
  }

  lemma {:induction false} GroupPairsInRange(s: seq<nat>, n: nat)
    requires InRange(s, n)
    ensures PairsInRange(GroupPairs(s), n)
  {
    if s != [] {
      RowPairsInRange(s[0], s[1..], n);
      GroupPairsInRange(s[1..], n);
    }
  }

  lemma {:induction false} AllPairsInRange(gs: seq<seq<nat>>, n: nat)
    requires GroupsInRange(gs, n)
    ensures PairsInRange(AllPairs(gs), n)
  {
    if gs != [] {
      GroupPairsInRange(gs[0], n);
      AllPairsInRange(gs[1..], n);
    }
  }

  /** One row of pairs from a member not repeated in the rest of a duplicate-free group
      hits the entry `[a][b]` once if `{a, b}` is that member and one of the others. */
  lemma {:induction false} RowHits(x: nat, s: seq<nat>, a: nat, b: nat)
    requires NoDup(s) && x !in s
    ensures Hits(RowPairs(x, s), a, b) ==
              (if a == x && b in s then 1 else 0) + (if b == x && a in s then 1 else 0)
  {
    if s != [] {
      assert NoDup(s[1..]);
      RowHits(x, s[1..], a, b);
      assert forall y :: y in s <==> y == s[0] || y in s[1..];
      assert s[0] !in s[1..];
    }
  }

  /** Within a duplicate-free group, the pairs visited hit `[a][b]` exactly once when `a` and
      `b` are two different members, and never otherwise. */
  lemma {:induction false} GroupPairsHits(s: seq<nat>, a: nat, b: nat)
    requires NoDup(s)
    ensures Hits(GroupPairs(s), a, b) == if a != b && a in s && b in s then 1 else 0
  {
    if s != [] {
      var x, t := s[0], s[1..];
      assert NoDup(t) && x !in t;
      GroupPairsHits(t, a, b);
      RowHits(x, t, a, b);
      HitsConcat(RowPairs(x, t), GroupPairs(t), a, b);
      assert forall y :: y in s <==> y == x || y in t;
    }
  }

  /** When no participant occurs twice across the groups, the pairs of all groups hit `[a][b]`
      exactly once when `a` and `b` are two different participants sharing a group. */
  lemma {:induction false} AllPairsHits(gs: seq<seq<nat>>, a: nat, b: nat)
    requires NoDup(Flatten(gs))
    ensures Hits(AllPairs(gs), a, b) == if a != b && SameGroup(gs, a, b) then 1 else 0
  {
    if gs != [] {
      var g0, more := gs[0], gs[1..];
      NoDupConcat(g0, Flatten(more));
      GroupPairsHits(g0, a, b);
      AllPairsHits(more, a, b);
      HitsConcat(GroupPairs(g0), AllPairs(more), a, b);
      FlattenMember(more, a);
      assert SameGroup(gs, a, b) <==> (a in g0 && b in g0) || SameGroup(more, a, b) by {
        if SameGroup(gs, a, b) {
          var g :| 0 <= g < |gs| && a in gs[g] && b in gs[g];
          if g > 0 {
            assert a in more[g - 1] && b in more[g - 1];
          }
        }
        if SameGroup(more, a, b) {
          var g :| 0 <= g < |more| && a in more[g] && b in more[g];
          assert a in gs[g + 1] && b in gs[g + 1];
        }
      }
    }
  }

  /** For a partition of the participants, feeding back all its pairs adds one to `[a][b]`
      exactly when `a` and `b` are different participants placed in the same group. */
  lemma {:induction false} PartitionFeedback(gs: seq<seq<nat>>, n: nat, a: nat, b: nat)
    requires IsPartition(gs, n)
    ensures Hits(AllPairs(gs), a, b) == if a != b && SameGroup(gs, a, b) then 1 else 0
  {
    PartitionNoDup(gs, n);
    AllPairsHits(gs, a, b);
  }

  /** Incrementing every pair of the groups adds to each entry the number of visited pairs
      that hit it; for a partition of the participants, that is one for each entry of two
      different participants sharing a group and nothing for every other entry. */
  lemma {:induction false} FeedbackEffect(adj: seq<seq<int>>, gs: seq<seq<nat>>)
    requires IsMatrix(adj) && GroupsInRange(gs, |adj|)
    ensures forall x: nat, y: nat :: x < |adj| && y < |adj| ==>
              IncrementAll(adj, AllPairs(gs))[x][y] == adj[x][y] + Hits(AllPairs(gs), x, y)
    ensures IsPartition(gs, |adj|) ==>
              forall x: nat, y: nat :: x < |adj| && y < |adj| ==>
                IncrementAll(adj, AllPairs(gs))[x][y] == adj[x][y] + (if x != y && SameGroup(gs, x, y) then 1 else 0)
  {
    AllPairsInRange(gs, |adj|);
    IncrementAllHits(adj, AllPairs(gs));
    if IsPartition(gs, |adj|) {
      forall x: nat, y: nat | x < |adj| && y < |adj|
        ensures IncrementAll(adj, AllPairs(gs))[x][y] == adj[x][y] + (if x != y && SameGroup(gs, x, y) then 1 else 0)
      {
        PartitionFeedback(gs, |adj|, x, y);
      }
    }
  }
}
