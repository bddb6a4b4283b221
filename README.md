# Floyd–Warshall graph metrics, modelled in Dafny

`floyd_warshall` is a small C# console program. It carries one graph as static data:
seven vertices labelled `1200 .. 1206` and an edge table listing six bidirectional edges,
one row per direction. Its entry point runs a fixed pipeline:

1. `BuildAdjacencyMatrix` builds a dense cost matrix: 0 on the diagonal, 1 where the edge
   table has an edge, and the sentinel `INF = 99` elsewhere.
2. `InitDistanceMatrix` copies that matrix.
3. `CalcShortestDistances` runs Floyd–Warshall on the copy in place, with the intermediate
   vertex `k` in the outermost loop.
4. `GetEccentricityByNode` computes each vertex's eccentricity, the largest entry of its row.
5. `GetRadiusAndDiameter` computes the radius and the diameter: the least and the greatest
   eccentricity.
6. `GetCenter` lists the vertices whose eccentricity equals a threshold.

The model is split into these files:

- `matrices.dfy` (module `Matrices`): square integer matrices as values, and `Block`, the
  value of the top-left square of an `array2<int>`.
- `running.dfy` (module `Running`): the running maximum and minimum folds that the
  program's accumulator loops compute, with their characterisation (bounded by every element
  and by the start value, and equal to one of them).
- `shortest_paths.dfy` (module `ShortestPaths`): the specification of Floyd–Warshall.
  - `Dist(W, i, j, k)` is the value the triple loop holds for `(i, j)` after rounds `0 .. k-1`.
  - This is tied to walks in the complete weighted graph of `W`. Some walk attains the value,
    and, when no cost is negative, no walk weighs less.
  - The module also proves the triangle inequality, idempotence and the in-place stability of
    the pivot row and column.
- `program.dfy` (module `FloydWarshall`): the program itself.
  - `INF`, the edge row type `Edge` and the metric functions.
  - `class Program`, whose `const` fields `vertices` and `edges` are the static tables.
  - The operations, as methods on `array2<int>` / `array<int>` that loop like the source
    and are proved against the specification functions.
  - `RunPipeline`, the entry point's wiring.
- `hardcoded_graph.dfy` (module `HardcodedGraph`): the static tables, the matrices each
  Floyd–Warshall round produces, and the metrics the program reports for them. The distance
  from 1200 to 1205 is 4, the radius 2, the diameter 4 and the center `[1202]`.

Behaviour of the source that the model keeps as written:

- **Label lookup.** `BuildAdjacencyMatrix` asks about the labels `1200 + j` and `1200 + k`,
  not about `vertices[j]` and `vertices[k]` (Program.cs:163). Only its size comes from its
  `vertices` argument. `AdjacencyCost` says so. `AdjacencyFollowsVertexTable` shows that this
  agrees with the vertex table when the table holds `1200, 1201, ...` in order.
  `RelabelledVerticesLoseEdges` shows an edge that is lost when it does not.
- **Static edge table.** `IsAdjacent` scans the static edge table, not the `edges` argument of
  `BuildAdjacencyMatrix` (Program.cs:199). In the model, `IsAdjacent` reads the field
  `this.edges`, and the `edges` parameter of `BuildAdjacencyMatrix` is never read.
- **Static vertex count.** `InitDistanceMatrix`, `CalcShortestDistances`,
  `GetEccentricityByNode` and `GetRadiusAndDiameter` size their loops by the static vertex
  table, not by their argument. The model's `requires` say what that demands of the argument:
  it must be at least that large, or C# would throw an index exception.
- **Radius as the center's threshold.** The comment on `GetCenter` (Program.cs:74) speaks of
  the diameter, but the entry point passes the radius (Program.cs:65). `RunPipeline` passes the
  radius. `CenterOfRadius` proves what that threshold gives: a non-empty center made of
  vertices of least eccentricity.
- **Running maximum from 0.** The running maximum starts at 0 (Program.cs:92-98), so a row
  whose entries were all negative would get eccentricity 0. `RunningMax(0, row)` keeps this.
  The pipeline's rows are never negative.
- **Radius from `INF`.** The running minimum starts at `INF`, so an empty vertex table gives
  radius 99 and diameter 0.
- **`INF` is an ordinary integer.** The relaxation at Program.cs:149 adds `INF` like any other
  cost. The model therefore computes exact shortest walks over the complete graph with costs
  in {0, 1, 99}. A walk that weighs less than 99 uses only stays and table edges, so an
  unreachable pair ends at exactly 99 (`UnreachablePairIsInf`), and so does the eccentricity
  of a vertex that cannot reach every other vertex. No entry exceeds 99, so a pair whose
  shortest path over table edges has 99 or more steps also ends at 99. The program cannot
  tell such a pair from an unreachable one.

## Model

| member | source | states |
|---|---|---|
| FloydWarshall.Program.IsAdjacent | Program.cs:197-203 | The result is true exactly when some row of the static edge table has source `source` and destination `destination`. Duplicate rows cannot change the answer. |
| FloydWarshall.Program.BuildAdjacencyMatrix | Program.cs:152-167 | A fresh `|vertices|`-square array whose entries are `AdjacencyMatrix(|vertices|)`. The lookup uses the labels `1200 + j` and the static edge table. The `edges` argument is not read. |
| FloydWarshall.Program.AdjacencyEntries | Program.cs:160-163 | Every adjacency entry is 0, 1 or `INF`, and it is 0 exactly on the diagonal. |
| FloydWarshall.Program.AdjacencyFollowsVertexTable | Program.cs:163 | If `vertices[t] == 1200 + t` for every `t`, an off-diagonal entry is 1 exactly when the edge table has an edge from `vertices[j]` to `vertices[k]`. |
| FloydWarshall.Program.RelabelledVerticesLoseEdges | Program.cs:163 | Vertices `[1, 2]` with an edge `1 → 2`: the edge is in the table, but entry `(0, 1)` is `INF`, because the lookup ignores the labels. |
| FloydWarshall.Program.InitDistanceMatrix | Program.cs:124-134 | A fresh `|vertices|`-square array, not aliased to its input, with the same entries as the input's top-left `|vertices|` block. The input is not modified (no `modifies`). |
| FloydWarshall.Program.CalcShortestDistances | Program.cs:141-150 | In place, the top-left block becomes `ShortestDistances` of its old value, with every entry between 0 and its old value. Entries outside the block are unchanged. The loop invariant is the round-by-round recurrence `Dist(W, i, j, k)`. |
| ShortestPaths.DistAttained | Program.cs:146-149 | After rounds `0 .. k-1`, some walk from `i` to `j` whose intermediate vertices are all below `k` weighs exactly the recurrence's value. |
| ShortestPaths.DistLowerBound | Program.cs:146-149 | With no negative cost, no walk from `i` to `j` with intermediate vertices below `k` weighs less than the recurrence after `k` rounds. |
| ShortestPaths.ShortestWalk | Program.cs:146-149 | Each final entry is the least weight of any walk from `i` to `j`: some walk attains it and none weighs less. |
| ShortestPaths.PivotStable | Program.cs:149 | Round `m` does not change row `m` or column `m`. So updating in place reads the same pivot values as a copy would. |
| ShortestPaths.TriangleInequality | Program.cs:146-149 | The final distances satisfy `d[i][j] <= d[i][m] + d[m][j]` for all `i`, `j`, `m`. |
| ShortestPaths.DistAtMost | Program.cs:149 | No round raises an entry above its initial cost. |
| ShortestPaths.DistNonNegative | Program.cs:149 | With no negative cost, no round produces a negative value. |
| ShortestPaths.DiagonalZero | Program.cs:146-149 | A zero on the diagonal of a non-negative matrix stays zero. |
| ShortestPaths.FixedPoint | Program.cs:146-149 | Running any number of rounds on the final distances leaves each entry unchanged. |
| ShortestPaths.Idempotent | Program.cs:141-150 | Running Floyd–Warshall again on its own result changes nothing, and the result is non-negative. |
| ShortestPaths.RoundStep | Program.cs:147-149 | One round with pivot `k` turns the matrix of values after `k` rounds into the matrix of values after `k + 1` rounds. |
| ShortestPaths.WeightSplit | Program.cs:149 | Cutting a walk at any position splits its weight into the weights of the two parts. |
| ShortestPaths.JoinWalks | Program.cs:149 | Joining a walk into `m` and a walk out of `m`, with `m` below `k`, gives a walk whose weight is the sum. |
| Running.RunningMax | Program.cs:92-98 | The running maximum from `init` is at least `init` and at least every element, and equals `init` or one of the elements. |
| Running.RunningMin | Program.cs:112-119 | The running minimum from `init` is at most `init` and at most every element, and equals `init` or one of the elements. |
| FloydWarshall.Program.GetEccentricityByNode | Program.cs:89-101 | A fresh array of length `|vertices|` with `e[i]` equal to the running maximum from 0 of row `i`. So `e[i]` is at least 0 and at least every entry of the row, and is 0 or one of them. |
| FloydWarshall.UnreachableEccentricity | Program.cs:97-98 | A row that still contains `INF` and nothing above it has eccentricity `INF`. |
| FloydWarshall.EccentricitiesBounded | Program.cs:89-101 | Rows with entries in `0 .. INF` have eccentricities in `0 .. INF`. |
| FloydWarshall.Program.GetRadiusAndDiameter | Program.cs:110-122 | The radius is the running minimum from `INF` and the diameter the running maximum from 0 of the first `|vertices|` eccentricities. Each eccentricity lies between them. An empty table gives `(INF, 0)`. |
| FloydWarshall.RadiusAttained | Program.cs:112-118 | With every eccentricity at most `INF`, the radius of a non-empty vector is one of its eccentricities. |
| FloydWarshall.CenterIndices | Program.cs:81 | The selected indices are exactly those `i` with `e[i] == t`, in strictly increasing order. |
| FloydWarshall.NoCenter | Program.cs:81 | No eccentricity equals the threshold, so the center is empty. |
| FloydWarshall.UniqueCenter | Program.cs:81 | Exactly one eccentricity equals the threshold, so the center is that index alone. |
| FloydWarshall.Program.GetCenter | Program.cs:79-82 | The center lists `vertices[i]` for the selected indices, in increasing index order, one label per index. |
| FloydWarshall.Program.CenterOfRadius | Program.cs:65 | With the radius as the threshold, as the entry point passes it, a non-empty vector bounded by `INF` has a non-empty center. Every center vertex has the least eccentricity. |
| FloydWarshall.DistancesBounded | Program.cs:146-149 | Costs in `0 .. INF` give shortest distances in `0 .. INF`. |
| FloydWarshall.Program.AdjacencyEccentricitiesBounded | Program.cs:158-163 | The eccentricities computed from any adjacency matrix lie in `0 .. INF`. |
| ShortestPaths.StepAtMostWeight | Program.cs:149 | With no negative cost, no single step of a walk costs more than the whole walk. |
| FloydWarshall.Program.CheapPairIsLinked | Program.cs:146-163 | On an adjacency matrix, a shortest distance below `INF` is attained by a walk whose every step is a stay or an edge of the table between the labels `1200 + a` and `1200 + b`. |
| FloydWarshall.Program.UnreachablePairIsInf | Program.cs:146-163 | Two vertices that no walk of stays and table edges connects end with distance exactly `INF`. |
| FloydWarshall.Program.UnreachableVertexEccentricity | Program.cs:89-101 | A vertex from which some vertex cannot be reached over table edges has eccentricity exactly `INF`. |
| FloydWarshall.Program.BuildDistances | Program.cs:45-51 | The adjacency matrix is left as built. The distance matrix is `ShortestDistances` of it. Both are fresh and `|vertices|`-square. |
| FloydWarshall.Program.RunPipeline | Program.cs:43-65 | The entry point's values. The distances, eccentricities, radius and diameter are the specification functions of the adjacency matrix. The center uses the radius as threshold and is non-empty whenever the vertex table is. |
| HardcodedGraph.EdgesListed | Program.cs:25-41 | The static edge table holds exactly the six bidirectional edges, each in both directions. |
| HardcodedGraph.HardcodedAdjacency | Program.cs:24-41 | On the static tables the adjacency matrix is the literal cost matrix `Costs`. |
| HardcodedGraph.HardcodedDistances | Program.cs:146-149 | Floyd–Warshall on `Costs` yields the literal matrix `Distances`. The rounds are written out as the matrices they produce. |
| HardcodedGraph.HardcodedEccentricities | Program.cs:89-101 | The eccentricities of the static graph are `[4, 3, 2, 3, 3, 4, 3]`. |
| HardcodedGraph.HardcodedRadiusDiameterCenter | Program.cs:110-122 | For those eccentricities the radius is 2, the diameter 4, and the center at the radius is `[1202]`. |
| HardcodedGraph.HardcodedMetrics | Program.cs:24-65 | On the static tables: the distance from 1200 to 1205 is 4, the radius 2, the diameter 4, and the center `[1202]`. |
| HardcodedGraph.StaticRun | Program.cs:43-65 | Running the entry point on a `Program` built from the static tables gives a 7-square distance matrix with `d[0, 5] == 4`, eccentricities `[4, 3, 2, 3, 3, 4, 3]`, radius 2, diameter 4 and center `[1202]`. |

## Left out

- `PrintMatrix`, `GetText` and the console output of the entry point (Program.cs:48-71, 169-195) are display only. `RunPipeline` returns the values the program prints instead.
- The sorted clone `sortedVertices` (Program.cs:156) is never used and has no effect on the result, so it is not modelled.
- The LINQ calls in `GetCenter` are modelled by their meaning, a filter over indices (`CenterIndices`) mapped to labels. The model returns a `seq<int>` rather than a `List<int>`.
- The edge table is a `seq<Edge>` of (source, destination) rows rather than an `int[,]`. `IsAdjacent` reads only the static table (Program.cs:25-41), which has exactly two columns, so each row is a source and a destination. A table with other column counts is never read.
- `GetCenter` takes the eccentricities as a `seq<int>` value rather than an array. It only reads them.
- C# index exceptions are not modelled as behaviour. Each method requires arrays at least as large as the loops index; that is the condition under which the C# method does not throw.
- FloydWarshall.Program.CalcShortestDistances: requires non-negative entries in the block it relaxes. The program only ever passes costs 0, 1 and 99. With negative costs, row and column `k` could change during round `k`, and the in-place result would no longer be the recurrence.
- 32-bit overflow is not modelled: integers are unbounded. In the program every sum is at most 2 · 99, so overflow cannot occur there.
- Negative cycles and their detection are not modelled; the program has no such costs.
