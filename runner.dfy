/** The `AlgorithmRunner` class: it holds the project it grouped and the groups of its last
    run, computes a grouping with the seed loop and the greedy placement loop, feeds the
    grouping back into the project's interaction counts, and renders it by name. Every loop
    is proved against the function of `Grouping`, `Feedback` or `Report` that states what it
    computes. */
module Runner {
  import opened Wrappers
  import opened Collections
  import opened Interactions
  import opened Edges
  import opened Grouping
  import opened Feedback
  import opened Report

  class AlgorithmRunner {
    /** The groups of the last run: `groupings[g]` lists participant indices, seed first. */
    var groupings: seq<seq<nat>>
    var project: Project

    ghost predicate Valid()
      reads this, project
    {
      project.Valid() && GroupsInRange(groupings, |project.adj|)
    }

    /** Runs the heuristic on `project` and keeps the result. When the edges run out before
        `numGroups` seeds are found, no grouping is kept. */
    constructor(project: Project, edges: seq<Edge>, numGroups: nat)
      requires project.Valid() && EdgesInRange(edges, |project.adj|) && numGroups >= 1
      ensures Valid() && this.project == project
      ensures RunGrouping(project.adj, edges, numGroups).Success? ==>
                groupings == RunGrouping(project.adj, edges, numGroups).value
      ensures RunGrouping(project.adj, edges, numGroups).Failure? ==> groupings == []
    {
      this.project := project;
      groupings := [];
      new;
      var _ := Run(project, edges, numGroups);
    }

    /** One run: seeds from the edges, then greedy placement of everybody else; on success
        the groups and the project are stored in the runner. */
    method Run(project: Project, edges: seq<Edge>, numGroups: nat)
      returns (r: Result<seq<seq<nat>>, RunError>)
      requires project.Valid() && EdgesInRange(edges, |project.adj|) && numGroups >= 1
      modifies this
      ensures r == RunGrouping(project.adj, edges, numGroups)
      ensures r.Success? ==> groupings == r.value && this.project == project && Valid()
      ensures r.Failure? ==> groupings == old(groupings) && this.project == old(this.project)
    {
      var adj := project.adj;
      var numPeople := |adj|;
      var groupSize := Quotient(numPeople, numGroups);
      var selected := SelectSeeds(numPeople, edges, numGroups);
      if selected.Failure? {
        return Failure(Exhausted);
      }
      var (seeds, nodes) := selected.value;
      var gs := AssignRemaining(adj, seeds, nodes, groupSize);
      groupings := gs;
      this.project := project;
      r := Success(gs);
    }

    /** The seed loop: draws edges in order and collects new endpoints, `node1` before
        `node2`, the latter only while seeds are still missing; every seed is filtered out of
        the participant list. It fails when the edges run out first. On success the seeds are
        the first `k` distinct endpoints in drawing order, pairwise distinct participant
        indices, and the rest is the ascending list of all other participants. */
    static method SelectSeeds(n: nat, edges: seq<Edge>, k: nat)
      returns (r: Result<(seq<nat>, seq<nat>), RunError>)
      requires EdgesInRange(edges, n)
      ensures r.Success? <==> k <= |Distinct(Endpoints(edges))|
      ensures r.Success? ==>
                var (seeds, rest) := r.value;
                && seeds == Distinct(Endpoints(edges))[..k]
                && |seeds| == k && NoDup(seeds) && InRange(seeds, n)
                && rest == Remaining(n, seeds) && InRange(rest, n)
                && StrictlyAscending(rest)
                && (forall y: nat :: y in rest <==> y < n && y !in seeds)
    {
      var tmp: seq<nat> := [];
      var nodes := Range(n);
      var i := 0;
      FilterOutNothing(Range(n));
      while |tmp| < k
        invariant 0 <= i <= |edges|
        invariant SeedState(edges, i, k, tmp)
        invariant nodes == FilterOut(Range(n), tmp)
        decreases |edges| - i
      {
        if i == |edges| {
          assert edges[..i] == edges;
          return Failure(Exhausted);
        }
        var edge := edges[i];
        SeedStep(edges, i, k, tmp);
        if edge.node1 !in tmp {
          FilterOutSnoc(Range(n), tmp, edge.node1);
          tmp := tmp + [edge.node1];
          nodes := Without(nodes, edge.node1);
        }
        if edge.node2 !in tmp && |tmp| < k {
          FilterOutSnoc(Range(n), tmp, edge.node2);
          tmp := tmp + [edge.node2];
          nodes := Without(nodes, edge.node2);
        }
        i := i + 1;
      }
      SeedDone(edges, n, i, k, tmp);
      r := Success((tmp, nodes));
    }

    /** The placement loop: starting from one group per seed, each remaining participant,
        in list order, is appended to the group `AddToGroupToMinimizeCost` picks. */
    static method AssignRemaining(adj: seq<seq<int>>, seeds: seq<nat>, rest: seq<nat>, groupSize: nat)
      returns (gs: seq<seq<nat>>)
      requires IsMatrix(adj) && |seeds| > 0 && InRange(seeds, |adj|) && InRange(rest, |adj|)
      ensures GroupsInRange(Singletons(seeds), |adj|)
      ensures gs == Assign(adj, Singletons(seeds), rest, groupSize)
    {
      gs := Singletons(seeds);
      ghost var init := gs;
      for j := 0 to |rest|
        invariant |gs| == |seeds| && GroupsInRange(gs, |adj|)
        invariant Assign(adj, gs, rest[j..], groupSize) == Assign(adj, init, rest, groupSize)
      {
        var node := rest[j];
        var c := AddToGroupToMinimizeCost(adj, gs, node, groupSize);
        assert rest[j..][1..] == rest[j + 1..];
        gs := gs[c := gs[c] + [node]];
      }
      assert rest[|rest|..] == [];
    }

    /** The index of the group to add `node` to: the cheapest group below `groupSize`
        (lowest index on ties); if there is none, the cheapest below `groupSize + 1`; if
        there is none either, 0. */
    static method AddToGroupToMinimizeCost(adj: seq<seq<int>>, gs: seq<seq<nat>>, node: nat, groupSize: nat)
      returns (minIndex: nat)
      requires IsMatrix(adj) && GroupsInRange(gs, |adj|) && node < |adj|
      ensures minIndex == ChooseGroup(adj, gs, node, groupSize)
      ensures HasGroupBelow(gs, groupSize) ==> Cheapest(adj, gs, node, groupSize, |gs|, minIndex)
      ensures !HasGroupBelow(gs, groupSize) && HasGroupBelow(gs, groupSize + 1) ==>
                Cheapest(adj, gs, node, groupSize + 1, |gs|, minIndex)
      ensures !HasGroupBelow(gs, groupSize + 1) ==> minIndex == 0
    {
      var minCost: Option<int> := None;
      minIndex := 0;
      for i := 0 to |gs|
        invariant minCost.None? ==> minIndex == 0 && ScanBest(adj, gs, node, groupSize, i).None?
        invariant minCost.Some? ==> ScanBest(adj, gs, node, groupSize, i) == Some(minIndex)
                                    && minCost.value == Cost(adj, gs[minIndex], node)
      {
        var cost := GetCost(adj, gs[i], node);
        if (minCost.None? || cost < minCost.value) && |gs[i]| < groupSize {
          minCost := Some(cost);
          minIndex := i;
        }
      }
      if minCost.None? {
        for i := 0 to |gs|
          invariant minCost.None? ==> minIndex == 0 && ScanBest(adj, gs, node, groupSize + 1, i).None?
          invariant minCost.Some? ==> ScanBest(adj, gs, node, groupSize + 1, i) == Some(minIndex)
                                      && minCost.value == Cost(adj, gs[minIndex], node)
        {
          var cost := GetCost(adj, gs[i], node);
          if (minCost.None? || cost < minCost.value) && |gs[i]| < groupSize + 1 {
            minCost := Some(cost);
            minIndex := i;
          }
        }
      }
      ChooseGroupSpec(adj, gs, node, groupSize);
    }

    /** The cost of adding `node` to `group`: the interactions of `node` with the members,
        summed; never negative when no count is. */
    static method GetCost(adj: seq<seq<int>>, group: seq<nat>, node: nat) returns (cost: int)
      requires IsMatrix(adj) && InRange(group, |adj|) && node < |adj|
      ensures cost == Cost(adj, group, node)
      ensures NonNegative(adj) ==> cost >= 0
    {
      cost := 0;
      for k := 0 to |group|
        invariant InRange(group[..k], |adj|) && cost == Cost(adj, group[..k], node)
      {
        assert group[..k + 1][..k] == group[..k];
        cost := cost + adj[group[k]][node];
      }
      assert group[..|group|] == group;
      if NonNegative(adj) {
        CostNonNegative(adj, group, node);
      }
    }

    /** Records every pair of members of the same group, first index before second, as one
        more interaction. For a partition this adds one to both entries of each pair of
        participants sharing a group and leaves every other entry, the diagonal included,
        as it was. */
    method UpdateInteractionsBasedOnGeneratedGroupings()
      requires Valid()
      modifies project
      ensures Valid() && project.persons == old(project.persons)
      ensures project.adj == IncrementAll(old(project.adj), AllPairs(groupings))
      ensures forall x: nat, y: nat :: x < |project.adj| && y < |project.adj| ==>
                project.adj[x][y] == old(project.adj)[x][y] + Hits(AllPairs(groupings), x, y)
      ensures IsPartition(groupings, |project.adj|) ==>
                forall x: nat, y: nat :: x < |project.adj| && y < |project.adj| ==>
                  project.adj[x][y] == old(project.adj)[x][y] + (if x != y && SameGroup(groupings, x, y) then 1 else 0)
    {
      var p, gs := project, groupings;
      ghost var adj0 := p.adj;
      for g := 0 to |gs|
        invariant p.Valid() && p.persons == old(p.persons) && p.adj == IncrementAll(adj0, AllPairs(gs[..g]))
      {
        var group := gs[g];
        assert InRange(group, |adj0|);
        ghost var before := AllPairs(gs[..g]);
        assert before + RowsBefore(group, 0) == before;
        for i := 0 to |group|
          invariant p.Valid() && p.persons == old(p.persons) && p.adj == IncrementAll(adj0, before + RowsBefore(group, i))
        {
          IncrementRow(p, group, i, adj0, before + RowsBefore(group, i));
          RowFinish(before, group, i);
        }
        GroupFinish(gs, g);
      }
      assert gs[..|gs|] == gs;
      FeedbackEffect(adj0, gs);
    }

    /** The innermost loop of the feedback: pairs member `i` of `group` with every later
        member, one increment each, in order. */
    static method IncrementRow(p: Project, group: seq<nat>, i: nat, ghost adj0: seq<seq<int>>, ghost done: seq<(nat, nat)>)
      requires IsMatrix(adj0) && i < |group| && InRange(group, |adj0|)
      requires p.Valid() && p.adj == IncrementAll(adj0, done)
      modifies p
      ensures p.Valid() && p.persons == old(p.persons)
      ensures p.adj == IncrementAll(adj0, done + RowPairs(group[i], group[i + 1..]))
    {
      assert done + RowPairs(group[i], group[i + 1..i + 1]) == done;
      for j := i + 1 to |group|
        invariant p.Valid() && p.persons == old(p.persons)
        invariant p.adj == IncrementAll(adj0, done + RowPairs(group[i], group[i + 1..j]))
      {
        p.IncrementInteractions(group[i], group[j]);
        RowStep(adj0, done, group[i], group, i + 1, j);
      }
      assert group[i + 1..|group|] == group[i + 1..];
    }

    /** Records one more interaction between `person1` and `person2` in the project. */
    method IncrementInteractions(person1: nat, person2: nat)
      requires Valid() && person1 < |project.adj| && person2 < |project.adj|
      modifies project
      ensures Valid() && project.persons == old(project.persons)
      ensures project.adj == Increment(old(project.adj), person1, person2)
      ensures forall x: nat, y: nat :: x < |project.adj| && y < |project.adj| ==>
                project.adj[x][y] == old(project.adj)[x][y] + Hit((person1, person2), x, y)
    {
      project.IncrementInteractions(person1, person2);
      IncrementHit(old(project.adj), person1, person2);
    }

    /** The groups with every participant index replaced by that participant's name; for a
        partition, every roster entry appears exactly as often as in the roster. */
    function MapPersonIdToName(): (r: seq<seq<string>>)
      reads this, project
      requires Valid()
      ensures |r| == |groupings|
      ensures forall g :: 0 <= g < |groupings| ==>
                |r[g]| == |groupings[g]|
                && forall k :: 0 <= k < |groupings[g]| ==> r[g][k] == project.persons[groupings[g][k]]
      ensures IsPartition(groupings, |project.persons|) ==> multiset(Flatten(r)) == multiset(project.persons)
    {
      PartitionNames(project.persons, groupings);
      NameGroups(project.persons, groupings)
    }

    /** The report: one `Group <g + 1>: <names joined by ", ">` line per group, joined by
        newlines. With at least one group and no newline in any name, it splits back into
        one line per group, line `g` reading back as group `g` with its names. */
    function PrettyPrintGroupings(): (r: string)
      reads this, project
      requires Valid()
      ensures |groupings| == 0 ==> r == ""
      ensures |groupings| >= 1 && NoNewline(MapPersonIdToName()) ==>
                var lines := Split(r, '\n');
                && |lines| == |groupings|
                && forall g :: 0 <= g < |groupings| ==>
                     ParseLine(lines[g]) == Some((g, Join(MapPersonIdToName()[g], ", ")))
    {
      RenderReadBack(MapPersonIdToName());
      Render(MapPersonIdToName())
    }
  }
}
