/**
 * The graph the program carries as static data: seven vertices `1200 .. 1206` and six
 * bidirectional edges (1200–1201, 1201–1202, 1202–1206, 1206–1205, 1202–1203, 1202–1204).
 * The Floyd–Warshall rounds are written out as the matrices they produce.
 */
module HardcodedGraph {
  import opened Matrices
  import opened Running
  import opened ShortestPaths
  import opened FloydWarshall

  const Vertices: seq<int> := [1200, 1201, 1202, 1203, 1204, 1205, 1206]

  const Edges: seq<Edge> := [
    Edge(1200, 1201), Edge(1201, 1202), Edge(1202, 1206), Edge(1206, 1205),
    Edge(1202, 1203), Edge(1202, 1204), Edge(1201, 1200), Edge(1202, 1201),
    Edge(1206, 1202), Edge(1205, 1206), Edge(1203, 1202), Edge(1204, 1202)
  ]

  /** The adjacency matrix; also the matrix after round 0, which changes nothing. */
  const Costs: Matrix := [
    [0, 1, 99, 99, 99, 99, 99],
    [1, 0, 1, 99, 99, 99, 99],
    [99, 1, 0, 1, 1, 99, 1],
    [99, 99, 1, 0, 99, 99, 99],
    [99, 99, 1, 99, 0, 99, 99],
    [99, 99, 99, 99, 99, 0, 1],
    [99, 99, 1, 99, 99, 1, 0]
  ]

  /** After rounds 0 and 1 (through 1200 and 1201). */
  const AfterRound1: Matrix := [
    [0, 1, 2, 99, 99, 99, 99],
    [1, 0, 1, 99, 99, 99, 99],
    [2, 1, 0, 1, 1, 99, 1],
    [99, 99, 1, 0, 99, 99, 99],
    [99, 99, 1, 99, 0, 99, 99],
    [99, 99, 99, 99, 99, 0, 1],
    [99, 99, 1, 99, 99, 1, 0]
  ]

  /** After round 2 (through 1202); rounds 3, 4 and 5 change nothing. */
  const AfterRound2: Matrix := [
    [0, 1, 2, 3, 3, 99, 3],
    [1, 0, 1, 2, 2, 99, 2],
    [2, 1, 0, 1, 1, 99, 1],
    [3, 2, 1, 0, 2, 99, 2],
    [3, 2, 1, 2, 0, 99, 2],
    [99, 99, 99, 99, 99, 0, 1],
    [3, 2, 1, 2, 2, 1, 0]
  ]

  /** After round 6 (through 1206): the shortest distances. */
  const Distances: Matrix := [
    [0, 1, 2, 3, 3, 4, 3],
    [1, 0, 1, 2, 2, 3, 2],
    [2, 1, 0, 1, 1, 2, 1],
    [3, 2, 1, 0, 2, 3, 2],
    [3, 2, 1, 2, 0, 3, 2],
    [4, 3, 2, 3, 3, 0, 1],
    [3, 2, 1, 2, 2, 1, 0]
  ]

  /** Round 0 (through 1200) changes nothing. */
  lemma RoundZero()
    ensures RelaxedThrough(Costs, 0, Costs)
  {
    forall i, j | 0 <= i < 7 && 0 <= j < 7
      ensures Costs[i][j] == Min(Costs[i][j], Costs[i][0] + Costs[0][j])
    {
      assert i == 0 || i == 1 || i == 2 || i == 3 || i == 4 || i == 5 || i == 6;
      assert j == 0 || j == 1 || j == 2 || j == 3 || j == 4 || j == 5 || j == 6;
    }
  }

  /** Round 1 (through 1201) finds the walks 1200–1201–1202. */
  lemma RoundOne()
    ensures RelaxedThrough(Costs, 1, AfterRound1)
  {
    forall i, j | 0 <= i < 7 && 0 <= j < 7
      ensures AfterRound1[i][j] == Min(Costs[i][j], Costs[i][1] + Costs[1][j])
    {
      assert i == 0 || i == 1 || i == 2 || i == 3 || i == 4 || i == 5 || i == 6;
      assert j == 0 || j == 1 || j == 2 || j == 3 || j == 4 || j == 5 || j == 6;
    }
  }

  lemma RoundTwo()
    ensures RelaxedThrough(AfterRound1, 2, AfterRound2)
  {
    forall i, j | 0 <= i < 7 && 0 <= j < 7
      ensures AfterRound2[i][j] == Min(AfterRound1[i][j], AfterRound1[i][2] + AfterRound1[2][j])
    {
      assert i == 0 || i == 1 || i == 2 || i == 3 || i == 4 || i == 5 || i == 6;
      assert j == 0 || j == 1 || j == 2 || j == 3 || j == 4 || j == 5 || j == 6;
    }
  }

  /** Rounds 3, 4 and 5 leave `AfterRound2` as it is. */
  lemma QuietRound(k: nat)
    requires 3 <= k <= 5
    ensures RelaxedThrough(AfterRound2, k, AfterRound2)
  {
    forall i, j | 0 <= i < 7 && 0 <= j < 7
      ensures AfterRound2[i][j] == Min(AfterRound2[i][j], AfterRound2[i][k] + AfterRound2[k][j])
    {
      assert i == 0 || i == 1 || i == 2 || i == 3 || i == 4 || i == 5 || i == 6;
      assert j == 0 || j == 1 || j == 2 || j == 3 || j == 4 || j == 5 || j == 6;
      assert k == 3 || k == 4 || k == 5;
    }
  }

  lemma RoundSix()
    ensures RelaxedThrough(AfterRound2, 6, Distances)
  {
    forall i, j | 0 <= i < 7 && 0 <= j < 7
      ensures Distances[i][j] == Min(AfterRound2[i][j], AfterRound2[i][6] + AfterRound2[6][j])
    {
      assert i == 0 || i == 1 || i == 2 || i == 3 || i == 4 || i == 5 || i == 6;
      assert j == 0 || j == 1 || j == 2 || j == 3 || j == 4 || j == 5 || j == 6;
    }
  }

  /** The edge table lists exactly the six bidirectional edges, each way. */
  lemma EdgesListed(s: int, t: int)
    ensures Edge(s, t) in Edges <==>
      || (s == 1200 && t == 1201) || (s == 1201 && t == 1200)
      || (s == 1201 && t == 1202) || (s == 1202 && t == 1201)
      || (s == 1202 && t == 1206) || (s == 1206 && t == 1202)
      || (s == 1206 && t == 1205) || (s == 1205 && t == 1206)
      || (s == 1202 && t == 1203) || (s == 1203 && t == 1202)
      || (s == 1202 && t == 1204) || (s == 1204 && t == 1202)
  {
  }

  /** One row of the adjacency matrix of the static tables. */
  lemma AdjacencyRow(p: Program, i: nat)
    requires p.edges == Edges && i < 7
    ensures forall j :: 0 <= j < 7 ==> p.AdjacencyCost(i, j) == Costs[i][j]
  {
    forall j | 0 <= j < 7
      ensures p.AdjacencyCost(i, j) == Costs[i][j]
    {
      EdgesListed(1200 + i, 1200 + j);
      assert i == 0 || i == 1 || i == 2 || i == 3 || i == 4 || i == 5 || i == 6;
      assert j == 0 || j == 1 || j == 2 || j == 3 || j == 4 || j == 5 || j == 6;
    }
  }

  /** The adjacency builder, on the static tables, produces `Costs`. */
  lemma HardcodedAdjacency(p: Program)
    requires p.vertices == Vertices && p.edges == Edges
    ensures p.AdjacencyMatrix(|p.vertices|) == Costs
  {
    var A := p.AdjacencyMatrix(7);
    forall i | 0 <= i < 7
      ensures A[i] == Costs[i]
    {
      AdjacencyRow(p, i);
    }
  }

  // The stage lemmas take `W` (always `Costs`) as a variable rather than the constant, so
  // that the recurrence is unfolded only where a proof asks for it.

  lemma AfterRoundZero(W: Matrix)
    requires W == Costs
    ensures ValuesAfter(W, 1, Costs)
  {
    RoundZero();
    RoundStep(W, 0, Costs, Costs);
  }

  lemma AfterRoundOne(W: Matrix)
    requires W == Costs
    ensures ValuesAfter(W, 2, AfterRound1)
  {
    AfterRoundZero(W);
    RoundOne();
    RoundStep(W, 1, Costs, AfterRound1);
  }

  lemma AfterRoundTwo(W: Matrix)
    requires W == Costs
    ensures ValuesAfter(W, 3, AfterRound2)
  {
    AfterRoundOne(W);
    RoundTwo();
    RoundStep(W, 2, AfterRound1, AfterRound2);
  }

  lemma AfterRoundThree(W: Matrix)
    requires W == Costs
    ensures ValuesAfter(W, 4, AfterRound2)
  {
    AfterRoundTwo(W);
    QuietRound(3);
    RoundStep(W, 3, AfterRound2, AfterRound2);
  }

  lemma AfterRoundFour(W: Matrix)
    requires W == Costs
    ensures ValuesAfter(W, 5, AfterRound2)
  {
    AfterRoundThree(W);
    QuietRound(4);
    RoundStep(W, 4, AfterRound2, AfterRound2);
  }

  lemma AfterRoundFive(W: Matrix)
    requires W == Costs
    ensures ValuesAfter(W, 6, AfterRound2)
  {
    AfterRoundFour(W);
    QuietRound(5);
    RoundStep(W, 5, AfterRound2, AfterRound2);
  }

  lemma AfterRoundSix(W: Matrix)
    requires W == Costs
    ensures ValuesAfter(W, 7, Distances)
  {
    AfterRoundFive(W);
    RoundSix();
    RoundStep(W, 6, AfterRound2, Distances);
  }

  /** Floyd–Warshall on `Costs` produces `Distances`. */
  lemma HardcodedDistances(W: Matrix)
    requires W == Costs
    ensures ShortestDistances(W) == Distances
  {
    AfterRoundSix(W);
    var D := ShortestDistances(W);
    forall i | 0 <= i < 7
      ensures D[i] == Distances[i]
    {
    }
  }

  /** A running maximum from 0 over a row of seven entries, the largest of which is `m`. */
  lemma RowMaximum(row: seq<int>, m: int, at: nat)
    requires |row| == 7 && 0 <= m && at < 7 && row[at] == m
    requires row[0] <= m && row[1] <= m && row[2] <= m && row[3] <= m
    requires row[4] <= m && row[5] <= m && row[6] <= m
    ensures RunningMax(0, row) == m
  {
    forall t | 0 <= t < |row|
      ensures row[t] <= m
    {
      assert t == 0 || t == 1 || t == 2 || t == 3 || t == 4 || t == 5 || t == 6;
    }
  }

  /** The eccentricities of 1200 .. 1203. */
  lemma EccentricitiesOfFirstRows(D: Matrix)
    requires D == Distances
    ensures Eccentricities(D)[0] == 4 && Eccentricities(D)[1] == 3
    ensures Eccentricities(D)[2] == 2 && Eccentricities(D)[3] == 3
  {
    RowMaximum(D[0], 4, 5);
    RowMaximum(D[1], 3, 5);
    RowMaximum(D[2], 2, 5);
    RowMaximum(D[3], 3, 0);
  }

  /** The eccentricities of 1204 .. 1206. */
  lemma EccentricitiesOfLastRows(D: Matrix)
    requires D == Distances
    ensures Eccentricities(D)[4] == 3 && Eccentricities(D)[5] == 4 && Eccentricities(D)[6] == 3
  {
    RowMaximum(D[4], 3, 0);
    RowMaximum(D[5], 4, 0);
    RowMaximum(D[6], 3, 0);
  }

  /** The eccentricities of the static graph. */
  lemma HardcodedEccentricities(D: Matrix)
    requires D == Distances
    ensures Eccentricities(D) == [4, 3, 2, 3, 3, 4, 3]
  {
    EccentricitiesOfFirstRows(D);
    EccentricitiesOfLastRows(D);
  }

  /** Radius 2, diameter 4, and the center is 1202 alone. */
  lemma HardcodedRadiusDiameterCenter(p: Program, e: seq<int>)
    requires p.vertices == Vertices && e == [4, 3, 2, 3, 3, 4, 3]
    ensures RunningMin(INF, e) == 2 && RunningMax(0, e) == 4
    ensures p.GetCenter(e, 2) == [1202]
  {
    assert RunningMin(INF, e) in e;
    assert RunningMax(0, e) in e;
    UniqueCenter(e, 2, 2);
  }

  /**
   * The metrics of the static graph: the distance from 1200 to 1205 is 4, the radius is 2,
   * the diameter is 4 and the center is the single vertex 1202.
   */
  lemma HardcodedMetrics(p: Program)
    requires p.vertices == Vertices && p.edges == Edges
    ensures var D := ShortestDistances(p.AdjacencyMatrix(|p.vertices|));
      && D[0][5] == 4
      && Eccentricities(D) == [4, 3, 2, 3, 3, 4, 3]
      && RunningMin(INF, Eccentricities(D)) == 2
      && RunningMax(0, Eccentricities(D)) == 4
      && p.GetCenter(Eccentricities(D), RunningMin(INF, Eccentricities(D))) == [1202]
  {
    var W := p.AdjacencyMatrix(|p.vertices|);
    HardcodedAdjacency(p);
    HardcodedDistances(W);
    HardcodedEccentricities(ShortestDistances(W));
    HardcodedRadiusDiameterCenter(p, Eccentricities(ShortestDistances(W)));
  }

  /** The entry point on the static tables: the values the program prints. */
  method StaticRun() returns (d: array2<int>, e: array<int>, rad: int, diam: int, center: seq<int>)
    ensures d.Length0 == 7 && d.Length1 == 7 && d[0, 5] == 4
    ensures e[..] == [4, 3, 2, 3, 3, 4, 3]
    ensures rad == 2 && diam == 4 && center == [1202]
  {
    var p := new Program(Vertices, Edges);
    var a;
    a, d, e, rad, diam, center := p.RunPipeline();
    HardcodedMetrics(p);
    assert d[0, 5] == Block(d, 7)[0][5];
  }
}
