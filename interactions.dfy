/** The project the grouping runs over: a roster of participant names and the square
    matrix counting how often each pair of participants has been grouped together.
    The project itself lives outside the grouping core; only the parts the core reads
    (`getPersons`, `getAdjMatrix`) and calls (`incrementInteractions`) are modelled. */
module Interactions {

  /** A square matrix of interaction counts. */
  predicate IsMatrix(adj: seq<seq<int>>) {
    forall i :: 0 <= i < |adj| ==> |adj[i]| == |adj|
  }

  /** All interaction counts are non-negative. */
  predicate NonNegative(adj: seq<seq<int>>) {
    forall i, j :: 0 <= i < |adj| && 0 <= j < |adj[i]| ==> adj[i][j] >= 0
  }

  /** How much one `incrementInteractions(a, b)` adds to the entry `[x][y]`: one for
      `[a][b]` and one for `[b][a]` (both land on the same entry when `a == b`). */
  function Hit(p: (nat, nat), x: nat, y: nat): (r: nat)
    ensures r <= 2
    ensures r > 0 <==> (p.0 == x && p.1 == y) || (p.0 == y && p.1 == x)
  {
    (if p.0 == x && p.1 == y then 1 else 0) + (if p.1 == x && p.0 == y then 1 else 0)
  }

  /** Total amount that incrementing every pair in `ps` adds to the entry `[x][y]`. */
  function Hits(ps: seq<(nat, nat)>, x: nat, y: nat): nat {
    if ps == [] then 0 else Hit(ps[0], x, y) + Hits(ps[1..], x, y)
  }

  lemma {:induction false} HitsConcat(ps: seq<(nat, nat)>, qs: seq<(nat, nat)>, x: nat, y: nat)
    ensures Hits(ps + qs, x, y) == Hits(ps, x, y) + Hits(qs, x, y)
  {
    if ps == [] {
      assert ps + qs == qs;
    } else {
      HitsConcat(ps[1..], qs, x, y);
      assert (ps + qs)[1..] == ps[1..] + qs;
    }
  }

  /** Incrementing one more pair adds exactly that pair's hit to every entry. */
  lemma {:induction false} HitsSnoc(ps: seq<(nat, nat)>, p: (nat, nat))
    ensures forall x: nat, y: nat :: Hits(ps + [p], x, y) == Hits(ps, x, y) + Hit(p, x, y)
  {
    forall x: nat, y: nat ensures Hits(ps + [p], x, y) == Hits(ps, x, y) + Hit(p, x, y) {
      HitsConcat(ps, [p], x, y);
    }
  }

  /** The matrix after one `incrementInteractions(a, b)`: one more at `[a][b]`, then one more
      at `[b][a]`. */
  function Increment(adj: seq<seq<int>>, a: nat, b: nat): (r: seq<seq<int>>)
    requires IsMatrix(adj) && a < |adj| && b < |adj|
    ensures IsMatrix(r) && |r| == |adj|
  {
    var m := adj[a := adj[a][b := adj[a][b] + 1]];
    m[b := m[b][a := m[b][a] + 1]]
  }

  /** One increment adds exactly the pair's hit to every entry and nothing else. */
  lemma {:induction false} IncrementHit(adj: seq<seq<int>>, a: nat, b: nat)
    requires IsMatrix(adj) && a < |adj| && b < |adj|
    ensures forall x: nat, y: nat :: x < |adj| && y < |adj| ==>
              Increment(adj, a, b)[x][y] == adj[x][y] + Hit((a, b), x, y)
  {
  }

  class Project {
    /** The roster: position in the sequence is the participant's index. */
    var persons: seq<string>
    /** `adj[i][j]`: how often participants `i` and `j` were grouped together. */
    var adj: seq<seq<int>>

    ghost predicate Valid()
      reads this
    {
      IsMatrix(adj) && |adj| == |persons|
    }

    /** Records one more interaction between `a` and `b`: the entries `[a][b]` and `[b][a]`
        each grow by one, nothing else changes. */
    method IncrementInteractions(a: nat, b: nat)
      requires Valid() && a < |adj| && b < |adj|
      modifies this
      ensures Valid() && persons == old(persons)
      ensures adj == Increment(old(adj), a, b)
    {
      adj := adj[a := adj[a][b := adj[a][b] + 1]];
      adj := adj[b := adj[b][a := adj[b][a] + 1]];
    }
  }
}
