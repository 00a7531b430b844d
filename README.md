# grouping_bot: the grouping heuristic, modelled in Dafny

`AlgorithmRunner` splits the participants of a project into `numGroups` groups. The aim is
that people who have often been grouped together before end up in different groups. A
project has a roster of names and a square matrix `adj`, where `adj[i][j]` counts how often
participants `i` and `j` have shared a group. A run has two phases:

1. **Seed selection.** The run draws edges from a `SortedEdgeGenerator`, heaviest pair
   first. It collects endpoints it has not seen yet until it has `numGroups` seeds. Each
   seed starts its own group, and each seed is filtered out of the list of participants
   still to place.
2. **Greedy placement.** The run takes the other participants in ascending index order. It
   appends each one to the group where it adds the least interaction. It first considers
   groups with fewer than `floor(n / numGroups)` members. Only if there is none does it
   consider groups below that size plus one. Ties go to the lowest index. If neither pass
   finds a group, the answer is group 0.

After a run, `updateInteractionsBasedOnGeneratedGroupings` records each pair of members of
the same group as one more interaction. `mapPersonIdToName` and `prettyPrintGroupings`
render the groups by name.

The model has eight modules:

| module | contents |
|---|---|
| `Collections` | sequence vocabulary: index ranges, `Array.filter`, first-occurrence de-duplication, flattening |
| `Interactions` | the `Project` class: roster, matrix and `IncrementInteractions` |
| `Edges` | the edges the generator hands out |
| `Grouping` | what a run computes, as functions, with the lemmas about it |
| `Feedback` | the pairs the feedback loops visit, and what they add to the matrix |
| `Report` | naming, numerals, `join` and the report |
| `Runner` | the `AlgorithmRunner` class, whose loops are proved against those functions |
| `Wrappers` | `Option` and `Result` |

What is proved:

- **A successful run is a partition.** It yields exactly `numGroups` groups. Every
  participant is in exactly one group.
- **Group sizes.** With `q` the floor of `n / numGroups`, every group has `q` or `q + 1`
  members. Exactly the remainder `n - numGroups * q` of them have `q + 1`.
- **Seeds.** Seed `g` heads group `g`. With at least two groups, a successful run and a
  first edge drawn between two different participants, the two endpoints of that edge are
  never grouped together. With one group they always are, since that group holds everybody.
- **Greedy choice.** The group chosen is the cheapest qualifying group, with the lowest index
  among equal costs. The fallback pass runs only when the first pass finds nothing, and the
  default 0 only when both find nothing.
- **Feedback.** For a partition, the entry for two different participants sharing a group
  grows by exactly one, in both directions. Every other entry is unchanged, the diagonal
  included.
- **Names and report.** Over a partition, the names listed are exactly the roster. No groups
  give the empty report. With at least one group and no newline in any name, the report
  splits back into one line per group, and line `g` reads back as group `g` with its members
  joined by ", ". A line reads back only in the exact form printed, and the lines joined by
  newlines give back the report, so the read-back fixes the text.

For a generator that hands out only pairs of two different participants, each pair once
(`Edges.IsSortedSupply`), a single participant leaves no pair to hand out, so a run fails
even for one group (`Grouping.GroupingFailsForSingleParticipant`).
With two or more participants, a generator that hands out every pair never runs out for
`numGroups <= n` (`Grouping.GroupingSucceedsOnFullSupply`).

## Model

| member | source | states |
|---|---|---|
| Runner.AlgorithmRunner.constructor | src/models/AlgorithmRunner.ts:11-14 | the runner keeps the project and, when the run succeeds, the groups that run computes |
| Runner.AlgorithmRunner.Run | src/models/AlgorithmRunner.ts:22-55 | the result is the grouping `RunGrouping` defines; on success both fields are stored, and the runner is unchanged when the edges run out |
| Runner.AlgorithmRunner.SelectSeeds | src/models/AlgorithmRunner.ts:27-41 | the seed loop succeeds exactly when the edges offer `numGroups` distinct endpoints; the seeds are then the first `numGroups` of them in drawing order, pairwise distinct and in range, and `nodes` is the ascending list of every other participant |
| Runner.AlgorithmRunner.AssignRemaining | src/models/AlgorithmRunner.ts:42-51 | the placement loop computes the fold `Assign` over the singleton seed groups |
| Runner.AlgorithmRunner.AddToGroupToMinimizeCost | src/models/AlgorithmRunner.ts:96-125 | returns the cheapest group below `groupSize` (lowest index on ties); if there is none, the cheapest below `groupSize + 1`; if neither exists, 0 |
| Runner.AlgorithmRunner.GetCost | src/models/AlgorithmRunner.ts:134-144 | the cost is the sum of `adj[m][node]` over the members `m`, and it is non-negative when all counts are |
| Runner.AlgorithmRunner.UpdateInteractionsBasedOnGeneratedGroupings | src/models/AlgorithmRunner.ts:73-81 | the matrix grows by one increment per pair `(group[i], group[j])`, `i < j`; for a partition, same-group pairs of different participants gain exactly one in both directions and all other entries stay as they were |
| Runner.AlgorithmRunner.IncrementRow | src/models/AlgorithmRunner.ts:76-78 | the inner loop for member `group[i]` applies the increments for that member paired with each later member, in order |
| Runner.AlgorithmRunner.IncrementInteractions | src/models/AlgorithmRunner.ts:83-85 | adds one to `[person1][person2]` and to `[person2][person1]`; nothing else changes |
| Runner.AlgorithmRunner.MapPersonIdToName | src/models/AlgorithmRunner.ts:57-63 | same shape as the groups, entry `[g][k]` is the name of participant `groupings[g][k]`; for a partition the names are a rearrangement of the roster |
| Runner.AlgorithmRunner.PrettyPrintGroupings | src/models/AlgorithmRunner.ts:65-71 | no groups give ""; otherwise, with no newline in a name, the text has one line per group and line `g` reads back as group `g` with its names joined by ", " |
| Interactions.Project.IncrementInteractions | src/models/AlgorithmRunner.ts:84 | the project's increment adds one to the two mirrored entries; roster and dimensions are unchanged |
| Interactions.HitsSnoc | src/models/AlgorithmRunner.ts:77 | one more increment adds exactly its own contribution to every entry |
| Grouping.GroupingCorrect | src/models/AlgorithmRunner.ts:22-54 | a successful run gives `numGroups` groups partitioning `0..n-1`, seed `g` heading group `g`, sizes `q` or `q + 1`, and exactly `Leftover(n, numGroups)` (the remainder `n - numGroups * q`) groups of size `q + 1` |
| Grouping.PlacementCorrect | src/models/AlgorithmRunner.ts:42-51 | placement after `k` seeds, one per group, keeps `k` groups, partitions the participants, keeps each seed first, and leaves sizes `q` or `q + 1` with the remainder of the division as the count of larger groups |
| Grouping.PlacementSizes | src/models/AlgorithmRunner.ts:25-51 | after one seed per group, placing the rest leaves every group with `q` or `q + 1` members and exactly `n - k * q` groups of `q + 1` |
| Grouping.FirstEdgeSeparated | src/models/AlgorithmRunner.ts:29-42 | the endpoints of the first edge drawn head groups 0 and 1 and never share a group |
| Grouping.GroupingSucceedsOnFullSupply | src/models/AlgorithmRunner.ts:29-41 | a generator handing out every pair over two or more participants never runs out for `1 <= numGroups <= n` |
| Grouping.GroupingFailsForSingleParticipant | src/models/AlgorithmRunner.ts:29-41 | with one participant there is no edge, so the seed loop runs out even for one group |
| Grouping.Quotient | src/models/AlgorithmRunner.ts:25 | `groupSize` is the largest `q` with `numGroups * q <= n` |
| Grouping.Leftover | src/models/AlgorithmRunner.ts:25 | what the floor division leaves over is less than `numGroups` |
| Grouping.CostNonNegative | src/models/AlgorithmRunner.ts:139-143 | the cost of joining a group is never negative when the counts are not |
| Grouping.CostConcat | src/models/AlgorithmRunner.ts:139-143 | the cost is additive over a split of the group |
| Grouping.ScanBestSpec | src/models/AlgorithmRunner.ts:102-110 | one pass finds nothing exactly when no group is below the cap, and otherwise the cheapest such group, strictly cheaper than every earlier one |
| Grouping.ChooseGroupSpec | src/models/AlgorithmRunner.ts:102-124 | the first pass decides when a group is below `groupSize`; otherwise the second pass decides when one is below `groupSize + 1`; otherwise the answer is 0 |
| Grouping.AssignMultiset | src/models/AlgorithmRunner.ts:43-51 | placement adds every remaining participant to exactly one group and removes nothing |
| Grouping.AssignKeepsHeads | src/models/AlgorithmRunner.ts:42-51 | placement only appends, so every group keeps its seed first |
| Grouping.PlaceBalanced | src/models/AlgorithmRunner.ts:44-50 | while the groups are not all full, one greedy placement keeps the size invariant and places exactly one more participant |
| Grouping.AssignBalanced | src/models/AlgorithmRunner.ts:43-51 | each placement keeps every group at most `q + 1`, and at most `q` while some group is below `q` |
| Grouping.SeedStep | src/models/AlgorithmRunner.ts:29-41 | one pass of the seed loop keeps the seeds a prefix of the distinct endpoints drawn so far, and all of them while seeds are missing |
| Grouping.SeedSplit | src/models/AlgorithmRunner.ts:27-42 | the seeds are distinct participant indices, and together with the remaining list they name every participant exactly once |
| Grouping.PartitionExactlyOneGroup | src/models/AlgorithmRunner.ts:42-51 | in a partition a participant is in some group exactly when it is an index below `n`, and in one group only |
| Collections.RemainingComplement | src/models/AlgorithmRunner.ts:27-39 | the list left after filtering out the seeds is ascending and holds exactly the indices below `n` that are not seeds |
| Collections.FilterOutSnoc | src/models/AlgorithmRunner.ts:35-39 | filtering one more seed out of the remaining list is filtering the longer seed list out of the full range |
| Collections.FlattenSingletons | src/models/AlgorithmRunner.ts:42 | the singleton groups of the seeds flatten back to the seeds |
| Edges.CompleteSupplyCoversAll | src/models/AlgorithmRunner.ts:26-41 | every pair handed out once, over two or more participants, touches every participant |
| Edges.DistinctOfPrefix | src/models/AlgorithmRunner.ts:29-41 | the distinct endpoints of the first `i` edges come first among those of all edges |
| Feedback.RowHits | src/models/AlgorithmRunner.ts:76-78 | the inner loop's pairs for member `group[i]` hit `[a][b]` once exactly when `{a, b}` is that member and a later one |
| Feedback.GroupPairsHits | src/models/AlgorithmRunner.ts:75-79 | the pairs of a duplicate-free group hit `[a][b]` exactly once when `a != b` are both members, and never otherwise |
| Feedback.AllPairsHits | src/models/AlgorithmRunner.ts:73-81 | with no participant repeated across groups, `[a][b]` is hit once exactly when `a != b` share a group |
| Feedback.PartitionFeedback | src/models/AlgorithmRunner.ts:73-81 | the same for a partition of the participants |
| Feedback.IncrementAllHits | src/models/AlgorithmRunner.ts:73-81 | applying a list of increments adds to each entry exactly the number of times the list hits it |
| Feedback.RowStep | src/models/AlgorithmRunner.ts:76-78 | one more pass of the inner loop applies one more increment, for the member and the next later member |
| Feedback.FeedbackEffect | src/models/AlgorithmRunner.ts:73-81 | after all pairs of the groups, each entry grew by its hit count; for a partition, by one for two different same-group participants and by nothing otherwise |
| Report.FlattenNames | src/models/AlgorithmRunner.ts:58-62 | naming the groups and then flattening is naming the flattened groups |
| Report.NamesPermutation | src/models/AlgorithmRunner.ts:58-62 | naming two rearrangements of the same indices gives rearrangements of the same names |
| Report.PartitionNames | src/models/AlgorithmRunner.ts:57-63 | the names of a partition's groups are exactly the roster entries, each as often as in the roster |
| Report.NatToStringRoundTrip | src/models/AlgorithmRunner.ts:68 | the group number printed reads back as the number |
| Report.JoinSplit | src/models/AlgorithmRunner.ts:70 | the pieces of a text split at a character, joined again with that character, give the text back |
| Report.SplitJoin | src/models/AlgorithmRunner.ts:70 | joining with a one-character separator no part contains, then splitting at it, gives the parts back |
| Report.SplitMembers | src/models/AlgorithmRunner.ts:68 | a member list joined with ", " splits at its commas into the first name and the others behind a space, when no name has a comma |
| Report.ParseNatToString | src/models/AlgorithmRunner.ts:68 | a numeral without a leading zero is the printed form of the number it reads as |
| Report.ParseLineExact | src/models/AlgorithmRunner.ts:68 | a line that reads back as group `g` and a member text is exactly the line printed for them |
| Report.GroupLineRoundTrip | src/models/AlgorithmRunner.ts:68 | a group line reads back as its group index (printed plus one) and its joined member list |
| Report.RenderLines | src/models/AlgorithmRunner.ts:66-70 | with at least one group and no newline in any name, the report splits at newlines into exactly the group lines |
| Report.RenderReadBack | src/models/AlgorithmRunner.ts:65-71 | with at least one group and no newline in any name, the report has one line per group, line `g` reading back as group `g` and its names |

## Left out

- `src/index.ts` is not part of this model. It holds the bot, scene and middleware setup, the HTTP handler and the database connection, which are all I/O.
- `SortedEdgeGenerator` is not part of this model. Its edges in drawing order are a parameter `edges`, and drawing the `i`-th edge reads `edges[i]`. `Edges.IsSortedSupply` states what the generator promises (every pair once, heaviest first), but only the two lemmas about full supplies use it. The run itself only needs the endpoints to be participant indices.
- Runner.AlgorithmRunner.Run: running out of edges is modelled as a `Failure(Exhausted)` result. What the generator does when drawn past its end is not in the model. The source returns the groups and has no error result.
- Runner.AlgorithmRunner.constructor: when the run fails, the runner keeps an empty grouping. In the source, whatever the generator raises would escape the constructor.
- `Project` is not part of this model beyond its roster, its matrix and the increment the core calls.
  - The increment is modelled as one more interaction at `[a][b]` and one at `[b][a]`, so an entry on the diagonal would grow by two. The feedback loop never increments a diagonal entry for a partition.
  - `getPersons` and `getAdjMatrix` are read as the fields `persons` and `adj`.
- `numGroups = 0` is excluded by a precondition. Line 25 would divide by zero there and produce a non-integer group size.
- The code checks no configuration. There is no check of `numGroups` against the roster, and no error when neither pass finds a group: the default 0 is returned. The model follows the code. `numGroups > n` shows up only as edges running out.
- The floating `Infinity` sentinel for the minimum cost is an `Option` (`None` = no candidate yet). JavaScript numbers are doubles; the model uses unbounded integers, which agree while counts stay below 2^53.
- Reading an index outside an array gives `undefined` in JavaScript. Preconditions exclude it: edge endpoints and group members are participant indices.
- The groups are values (`seq`). The in-place `push` into `groupings[groupIndex]` is a sequence update. The model does not capture that the array `run` returns is the same object as the field `groupings`, so later mutation through either is visible through the other.
