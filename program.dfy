/**
 * The numeric pipeline of the `floyd_warshall` program: edge lookup, the adjacency
 * matrix, its copy, Floyd–Warshall in place, and the metrics derived from it
 * (eccentricity per vertex, radius, diameter, center).
 */
module FloydWarshall {
  import opened Matrices
  import opened Running
  import opened ShortestPaths

  /** The cost given to a pair of distinct vertices with no edge between them. */
  const INF: int := 99

  /** The label the adjacency builder looks up for the vertex at index `j`. */
  const FirstLabel: int := 1200

  /** A row of the edge table: a directed edge between two vertex labels. */
  datatype Edge = Edge(source: int, destination: int)

  // ---------------------------------------------------------------------------
  // Metrics, as values

  /** The eccentricity of each row: its running maximum from 0. */
  ghost function Eccentricities(D: Matrix): (e: seq<int>)
    ensures |e| == |D|
    ensures forall i :: 0 <= i < |D| ==> e[i] == RunningMax(0, D[i])
  {
    seq(|D|, i requires 0 <= i < |D| => RunningMax(0, D[i]))
  }

  /** The indices `i` of `e` with `e[i] == t`, in increasing order. */
  function CenterIndices(e: seq<int>, t: int): (idx: seq<nat>)
    ensures forall m :: 0 <= m < |idx| ==> idx[m] < |e| && e[idx[m]] == t
    ensures forall m, m' :: 0 <= m < m' < |idx| ==> idx[m] < idx[m']
    ensures forall i :: 0 <= i < |e| && e[i] == t ==> i in idx
  {
    if e == [] then []
    else
      var idx' := CenterIndices(e[..|e| - 1], t);
      assert forall m :: 0 <= m < |idx'| ==> idx'[m] < |e| - 1;
      idx' + (if e[|e| - 1] == t then [|e| - 1] else [])
  }

  /** No index carries the threshold: the center is empty. */
  lemma {:induction false} NoCenter(e: seq<int>, t: int)
    requires forall j :: 0 <= j < |e| ==> e[j] != t
    ensures CenterIndices(e, t) == []
  {
    if e != [] {
      NoCenter(e[..|e| - 1], t);
    }
  }

  /** Exactly one index carries the threshold: the center is that index alone. */
  lemma {:induction false} UniqueCenter(e: seq<int>, t: int, i: nat)
    requires i < |e| && e[i] == t
    requires forall j :: 0 <= j < |e| && j != i ==> e[j] != t
    ensures CenterIndices(e, t) == [i]
  {
    var e' := e[..|e| - 1];
    if i == |e| - 1 {
      NoCenter(e', t);
    } else {
      UniqueCenter(e', t, i);
    }
  }

  /** A row that still holds the sentinel and nothing above it has eccentricity `INF`. */
  lemma UnreachableEccentricity(row: seq<int>)
    requires INF in row
    requires forall t :: 0 <= t < |row| ==> row[t] <= INF
    ensures RunningMax(0, row) == INF
  {
  }

  /** With every eccentricity at most `INF`, a non-empty vector attains its radius. */
  lemma RadiusAttained(e: seq<int>)
    requires |e| > 0
    requires forall t :: 0 <= t < |e| ==> e[t] <= INF
    ensures RunningMin(INF, e) in e
  {
  }

  /** The first `i` entries of `s` are the eccentricities of the first `i` rows of `D`. */
  ghost predicate RowsDone(s: seq<int>, D: Matrix, i: nat)
  {
    i <= |s| == |D| && forall r :: 0 <= r < i ==> s[r] == RunningMax(0, D[r])
  }

  /** One more finished row. */
  lemma RowsDoneStep(s: seq<int>, D: Matrix, i: nat)
    requires RowsDone(s, D, i) && i < |s| && s[i] == RunningMax(0, D[i])
    ensures RowsDone(s, D, i + 1)
  {
  }

  /** The entries of `s` from `i` on are 0. */
  ghost predicate ZerosFrom(s: seq<int>, i: nat)
  {
    forall r :: i <= r < |s| ==> s[r] == 0
  }

  /** A matrix with entries in `0 .. INF` has eccentricities in `0 .. INF`. */
  lemma EccentricitiesBounded(D: Matrix)
    requires Square(D)
    requires forall i, j :: 0 <= i < |D| && 0 <= j < |D| ==> 0 <= D[i][j] <= INF
    ensures forall i :: 0 <= i < |D| ==> 0 <= Eccentricities(D)[i] <= INF
  {
    forall i | 0 <= i < |D|
      ensures Eccentricities(D)[i] <= INF
    {
      var r := RunningMax(0, D[i]);
      if r in D[i] {
        var j :| 0 <= j < |D| && D[i][j] == r;
      }
    }
  }

  /** Every shortest distance of a matrix whose entries lie in `0 .. INF` lies there too. */
  lemma DistancesBounded(W: Matrix)
    requires Square(W) && NonNegative(W)
    requires forall i, j :: 0 <= i < |W| && 0 <= j < |W| ==> W[i][j] <= INF
    ensures forall i, j :: 0 <= i < |W| && 0 <= j < |W| ==>
      0 <= ShortestDistances(W)[i][j] <= INF
  {
    forall i, j | 0 <= i < |W| && 0 <= j < |W|
      ensures 0 <= ShortestDistances(W)[i][j] <= INF
    {
      DistNonNegative(W, i, j, |W|);
      DistAtMost(W, i, j, |W|);
    }
  }

  /**
   * The program's static state (its vertex table and edge table) and its operations.
   * Each operation sizes its loops by the static vertex table, as the program does.
   */
  class Program {
    /** The vertex labels; a vertex's index is its position here. */
    const vertices: seq<int>
    /** The directed edges, one row per edge. */
    const edges: seq<Edge>

    constructor (vertices: seq<int>, edges: seq<Edge>)
      ensures this.vertices == vertices && this.edges == edges
    {
      this.vertices := vertices;
      this.edges := edges;
    }

    /** Whether some row of the edge table runs from `source` to `destination`. */
    method IsAdjacent(source: int, destination: int) returns (adjacent: bool)
      ensures adjacent <==> exists r :: 0 <= r < |edges| && edges[r].source == source && edges[r].destination == destination
    {
      var j := 0;
      while j < |edges|
        invariant 0 <= j <= |edges|
        invariant forall r :: 0 <= r < j ==> !(edges[r].source == source && edges[r].destination == destination)
      {
        if edges[j].source == source && edges[j].destination == destination {
          return true;
        }
        j := j + 1;
      }
      return false;
    }

    /**
     * The cost the adjacency builder gives the pair of indices `(j, k)`: 0 on the diagonal,
     * otherwise 1 when the edge table has an edge between the labels `1200 + j` and
     * `1200 + k`, and `INF` when it has none.
     */
    ghost function AdjacencyCost(j: int, k: int): int
    {
      if j == k then 0
      else if Edge(FirstLabel + j, FirstLabel + k) in edges then 1
      else INF
    }

    /** The adjacency matrix of `size` vertices, as a value. */
    ghost function AdjacencyMatrix(size: nat): (W: Matrix)
      ensures |W| == size && Square(W)
      ensures forall j, k :: 0 <= j < size && 0 <= k < size ==> W[j][k] == AdjacencyCost(j, k)
    {
      seq(size, j requires 0 <= j < size => seq(size, k requires 0 <= k < size => AdjacencyCost(j, k)))
    }

    /**
     * Builds the `|vertices|`-square cost matrix. The size comes from the `vertices`
     * argument; the lookup ignores both the labels in `vertices` and the `edges`
     * argument and asks the static edge table about the labels `1200 + j`, `1200 + k`.
     */
    method BuildAdjacencyMatrix(vertices: seq<int>, edges: seq<Edge>) returns (matrix: array2<int>)
      ensures fresh(matrix)
      ensures matrix.Length0 == |vertices| && matrix.Length1 == |vertices|
      ensures Block(matrix, |vertices|) == AdjacencyMatrix(|vertices|)
    {
      var size := |vertices|;
      matrix := new int[size, size];
      for j := 0 to size
        invariant forall r, c :: 0 <= r < j && 0 <= c < size ==> matrix[r, c] == AdjacencyCost(r, c)
      {
        for k := 0 to size
          invariant forall r, c :: 0 <= r < j && 0 <= c < size ==> matrix[r, c] == AdjacencyCost(r, c)
          invariant forall c :: 0 <= c < k ==> matrix[j, c] == AdjacencyCost(j, c)
        {
          if j == k {
            matrix[j, k] := 0;
          } else {
            var adjacent := IsAdjacent(FirstLabel + j, FirstLabel + k);
            assert adjacent <==> Edge(FirstLabel + j, FirstLabel + k) in this.edges by {
              if Edge(FirstLabel + j, FirstLabel + k) in this.edges {
                var r :| 0 <= r < |this.edges| && this.edges[r] == Edge(FirstLabel + j, FirstLabel + k);
              }
            }
            matrix[j, k] := if adjacent then 1 else INF;
          }
        }
      }
      SameBlock(matrix, AdjacencyMatrix(size));
    }

    /** Every entry of the adjacency matrix is 0, 1 or `INF`, and 0 only on the diagonal. */
    lemma AdjacencyEntries(size: nat, j: nat, k: nat)
      requires j < size && k < size
      ensures var c := AdjacencyMatrix(size)[j][k]; c == 0 || c == 1 || c == INF
      ensures AdjacencyMatrix(size)[j][k] == 0 <==> j == k
    {
    }

    /**
     * When the vertex table holds the labels `1200, 1201, ...` in order, the label lookup
     * agrees with the table: entry `(j, k)` off the diagonal is 1 exactly when there is an
     * edge from `vertices[j]` to `vertices[k]`.
     */
    lemma AdjacencyFollowsVertexTable(j: nat, k: nat)
      requires j < |vertices| && k < |vertices| && j != k
      requires forall t :: 0 <= t < |vertices| ==> vertices[t] == FirstLabel + t
      ensures AdjacencyMatrix(|vertices|)[j][k] == 1 <==> Edge(vertices[j], vertices[k]) in edges
    {
    }

    /**
     * The label lookup does not consult the vertex table: with vertices labelled 1 and 2 and
     * an edge from 1 to 2, the adjacency matrix still has `INF` for that pair.
     */
    lemma RelabelledVerticesLoseEdges()
      requires vertices == [1, 2] && edges == [Edge(1, 2)]
      ensures Edge(vertices[0], vertices[1]) in edges
      ensures AdjacencyMatrix(|vertices|)[0][1] == INF
    {
    }

    /** Copies the top-left `|vertices|` block of `aMatrix` into a new array. */
    method InitDistanceMatrix(aMatrix: array2<int>) returns (d: array2<int>)
      requires |vertices| <= aMatrix.Length0 && |vertices| <= aMatrix.Length1
      ensures fresh(d)
      ensures d.Length0 == |vertices| && d.Length1 == |vertices|
      ensures Block(d, |vertices|) == Block(aMatrix, |vertices|)
    {
      var size := |vertices|;
      d := new int[size, size];
      for j := 0 to size
        invariant forall r, c :: 0 <= r < j && 0 <= c < size ==> d[r, c] == aMatrix[r, c]
      {
        for k := 0 to size
          invariant forall r, c :: 0 <= r < j && 0 <= c < size ==> d[r, c] == aMatrix[r, c]
          invariant forall c :: 0 <= c < k ==> d[j, c] == aMatrix[j, c]
        {
          d[j, k] := aMatrix[j, k];
        }
      }
      SameBlock(d, Block(aMatrix, size));
    }

    /** An array whose entries match a matrix value entry by entry has that value as its block. */
    static lemma SameBlock(m: array2<int>, W: Matrix)
      requires Square(W) && |W| <= m.Length0 && |W| <= m.Length1
      requires forall i, j :: 0 <= i < |W| && 0 <= j < |W| ==> m[i, j] == W[i][j]
      ensures Block(m, |W|) == W
    {
      var B := Block(m, |W|);
      forall i | 0 <= i < |W|
        ensures B[i] == W[i]
      {
      }
    }

    /**
     * Floyd–Warshall in place over the top-left `|vertices|` block, with the intermediate
     * vertex `k` in the outermost loop; the rest of the array is left alone.
     */
    method CalcShortestDistances(distanceMatrix: array2<int>)
      requires |vertices| <= distanceMatrix.Length0 && |vertices| <= distanceMatrix.Length1
      requires forall i, j :: 0 <= i < |vertices| && 0 <= j < |vertices| ==> 0 <= distanceMatrix[i, j]
      modifies distanceMatrix
      ensures Block(distanceMatrix, |vertices|) == ShortestDistances(old(Block(distanceMatrix, |vertices|)))
      ensures forall i, j :: 0 <= i < |vertices| && 0 <= j < |vertices| ==>
        0 <= distanceMatrix[i, j] <= old(distanceMatrix[i, j])
      ensures forall i, j :: 0 <= i < distanceMatrix.Length0 && 0 <= j < distanceMatrix.Length1 && !(i < |vertices| && j < |vertices|) ==>
        distanceMatrix[i, j] == old(distanceMatrix[i, j])
    {
      var size := |vertices|;
      ghost var W := Block(distanceMatrix, size);
      for k := 0 to size
        invariant forall r, c :: 0 <= r < size && 0 <= c < size ==> distanceMatrix[r, c] == Dist(W, r, c, k)
        invariant forall r, c :: 0 <= r < distanceMatrix.Length0 && 0 <= c < distanceMatrix.Length1 && !(r < size && c < size) ==>
          distanceMatrix[r, c] == old(distanceMatrix[r, c])
      {
        for i := 0 to size
          invariant forall r, c :: 0 <= r < size && 0 <= c < size ==>
            distanceMatrix[r, c] == Dist(W, r, c, if r < i then k + 1 else k)
          invariant forall r, c :: 0 <= r < distanceMatrix.Length0 && 0 <= c < distanceMatrix.Length1 && !(r < size && c < size) ==>
            distanceMatrix[r, c] == old(distanceMatrix[r, c])
        {
          for j := 0 to size
            invariant forall r, c :: 0 <= r < size && 0 <= c < size ==>
              distanceMatrix[r, c] == Dist(W, r, c, if r < i || (r == i && c < j) then k + 1 else k)
            invariant forall r, c :: 0 <= r < distanceMatrix.Length0 && 0 <= c < distanceMatrix.Length1 && !(r < size && c < size) ==>
              distanceMatrix[r, c] == old(distanceMatrix[r, c])
          {
            PivotStable(W, k, i, j);
            assert distanceMatrix[i, k] == Dist(W, i, k, k) && distanceMatrix[k, j] == Dist(W, k, j, k);
            distanceMatrix[i, j] := Min(distanceMatrix[i, j], distanceMatrix[i, k] + distanceMatrix[k, j]);
            assert distanceMatrix[i, j] == Dist(W, i, j, k + 1);
          }
        }
      }
      SameBlock(distanceMatrix, ShortestDistances(W));
      forall i, j | 0 <= i < size && 0 <= j < size
        ensures 0 <= distanceMatrix[i, j] <= W[i][j]
      {
        DistNonNegative(W, i, j, size);
        DistAtMost(W, i, j, size);
      }
    }

    /** For each vertex, the largest entry of its row, starting from 0. */
    method GetEccentricityByNode(distanceMatrix: array2<int>) returns (e: array<int>)
      requires |vertices| <= distanceMatrix.Length0 && |vertices| <= distanceMatrix.Length1
      ensures fresh(e)
      ensures e[..] == Eccentricities(Block(distanceMatrix, |vertices|))
    {
      var size := |vertices|;
      ghost var D := Block(distanceMatrix, size);
      e := new int[size](_ => 0);
      for i := 0 to size
        invariant RowsDone(e[..], D, i)
        invariant ZerosFrom(e[..], i)
      {
        for j := 0 to size
          invariant RowsDone(e[..], D, i)
          invariant ZerosFrom(e[..], i + 1)
          invariant e[i] == RunningMax(0, D[i][..j])
        {
          RunningMaxStep(0, D[i], j);
          e[i] := Max(e[i], distanceMatrix[i, j]);
        }
        assert D[i][..size] == D[i];
        RowsDoneStep(e[..], D, i);
      }
    }

    /**
     * The radius (running minimum from `INF`) and the diameter (running maximum from 0)
     * of the first `|vertices|` eccentricities.
     */
    method GetRadiusAndDiameter(e: array<int>) returns (rad: int, diam: int)
      requires |vertices| <= e.Length
      ensures rad == RunningMin(INF, e[..|vertices|])
      ensures diam == RunningMax(0, e[..|vertices|])
      ensures forall i :: 0 <= i < |vertices| ==> rad <= e[i] <= diam
      ensures |vertices| == 0 ==> rad == INF && diam == 0
    {
      rad := INF;
      diam := 0;
      for i := 0 to |vertices|
        invariant rad == RunningMin(INF, e[..i])
        invariant diam == RunningMax(0, e[..i])
      {
        RunningMinStep(INF, e[..], i);
        RunningMaxStep(0, e[..], i);
        assert e[..][..i + 1] == e[..i + 1] && e[..][..i] == e[..i];
        rad := Min(rad, e[i]);
        diam := Max(diam, e[i]);
      }
    }

    /**
     * The center for threshold `radius`: the labels `vertices[i]` of the indices `i` with
     * `e[i] == radius`, in increasing index order.
     */
    function GetCenter(e: seq<int>, radius: int): (center: seq<int>)
      requires |e| <= |vertices|
      ensures |center| == |CenterIndices(e, radius)|
      ensures forall m :: 0 <= m < |center| ==> center[m] == vertices[CenterIndices(e, radius)[m]]
    {
      var idx := CenterIndices(e, radius);
      seq(|idx|, m requires 0 <= m < |idx| => vertices[idx[m]])
    }

    /**
     * With the radius as threshold, as the program passes it, the center of a non-empty
     * eccentricity vector bounded by `INF` is non-empty and lists only vertices of least
     * eccentricity.
     */
    lemma CenterOfRadius(e: seq<int>)
      requires 0 < |e| <= |vertices|
      requires forall t :: 0 <= t < |e| ==> e[t] <= INF
      ensures GetCenter(e, RunningMin(INF, e)) != []
      ensures forall m :: 0 <= m < |CenterIndices(e, RunningMin(INF, e))| ==>
        forall t :: 0 <= t < |e| ==> e[CenterIndices(e, RunningMin(INF, e))[m]] <= e[t]
    {
      var rad := RunningMin(INF, e);
      RadiusAttained(e);
      var i :| 0 <= i < |e| && e[i] == rad;
      assert i in CenterIndices(e, rad);
    }

    /** The eccentricities computed from the adjacency matrix lie in `0 .. INF`. */
    lemma AdjacencyEccentricitiesBounded(size: nat)
      ensures forall i :: 0 <= i < size ==> 0 <= Eccentricities(ShortestDistances(AdjacencyMatrix(size)))[i] <= INF
    {
      var W := AdjacencyMatrix(size);
      DistancesBounded(W);
      EccentricitiesBounded(ShortestDistances(W));
    }

    /**
     * A step the adjacency matrix prices below `INF`: staying put, or an edge of the edge
     * table between the labels `1200 + a` and `1200 + b`.
     */
    ghost predicate EdgeStep(a: nat, b: nat)
    {
      a == b || Edge(FirstLabel + a, FirstLabel + b) in edges
    }

    /** `p` leads from `i` to `j` over the first `n` indices by stays and table edges only. */
    ghost predicate EdgeWalk(n: nat, p: seq<nat>, i: nat, j: nat)
    {
      && 2 <= |p| && p[0] == i && p[|p| - 1] == j
      && (forall t :: 0 <= t < |p| ==> p[t] < n)
      && (forall t :: 0 <= t < |p| - 1 ==> EdgeStep(p[t], p[t + 1]))
    }

    /** A shortest distance below `INF` is the weight of a walk over table edges. */
    lemma CheapPairIsLinked(n: nat, i: nat, j: nat)
      requires i < n && j < n
      ensures ShortestDistances(AdjacencyMatrix(n))[i][j] < INF ==> exists p :: EdgeWalk(n, p, i, j)
    {
      var W := AdjacencyMatrix(n);
      if ShortestDistances(W)[i][j] < INF {
        var p := ShortestWalk(W, i, j);
        forall t | 0 <= t < |p| - 1
          ensures EdgeStep(p[t], p[t + 1])
        {
          StepAtMostWeight(W, p, t);
        }
        assert EdgeWalk(n, p, i, j);
      }
    }

    /**
     * Two vertices that no walk over table edges connects keep the sentinel: their
     * shortest distance is exactly `INF`.
     */
    lemma UnreachablePairIsInf(n: nat, i: nat, j: nat)
      requires i < n && j < n
      requires forall p :: !EdgeWalk(n, p, i, j)
      ensures ShortestDistances(AdjacencyMatrix(n))[i][j] == INF
    {
      CheapPairIsLinked(n, i, j);
      DistAtMost(AdjacencyMatrix(n), i, j, n);
    }

    /** A vertex from which some vertex cannot be reached has eccentricity `INF`. */
    lemma UnreachableVertexEccentricity(n: nat, i: nat, j: nat)
      requires i < n && j < n
      requires forall p :: !EdgeWalk(n, p, i, j)
      ensures Eccentricities(ShortestDistances(AdjacencyMatrix(n)))[i] == INF
    {
      var W := AdjacencyMatrix(n);
      var D := ShortestDistances(W);
      UnreachablePairIsInf(n, i, j);
      DistancesBounded(W);
      assert D[i][j] == INF;
      UnreachableEccentricity(D[i]);
    }

    /**
     * The first half of the program's entry point: build the adjacency matrix, copy it,
     * and relax the copy in place; the adjacency matrix itself is left as built.
     */
    method BuildDistances() returns (a: array2<int>, d: array2<int>)
      ensures fresh(a) && fresh(d)
      ensures a.Length0 == |vertices| && a.Length1 == |vertices|
      ensures d.Length0 == |vertices| && d.Length1 == |vertices|
      ensures Block(a, |vertices|) == AdjacencyMatrix(|vertices|)
      ensures Block(d, |vertices|) == ShortestDistances(AdjacencyMatrix(|vertices|))
    {
      var size := |vertices|;
      a := BuildAdjacencyMatrix(vertices, edges);
      ghost var W := Block(a, size);
      d := InitDistanceMatrix(a);
      forall i, j | 0 <= i < size && 0 <= j < size
        ensures 0 <= d[i, j]
      {
        assert d[i, j] == Block(d, size)[i][j] == W[i][j] == AdjacencyCost(i, j);
      }
      CalcShortestDistances(d);
      assert Block(a, size) == W;
    }

    /**
     * The whole pipeline as the program's entry point wires it: the distances, then the
     * metrics, with the radius passed as the center's threshold.
     */
    method RunPipeline() returns (a: array2<int>, d: array2<int>, e: array<int>, rad: int, diam: int, center: seq<int>)
      ensures fresh(a) && fresh(d) && fresh(e)
      ensures a.Length0 == |vertices| && a.Length1 == |vertices|
      ensures d.Length0 == |vertices| && d.Length1 == |vertices|
      ensures Block(a, |vertices|) == AdjacencyMatrix(|vertices|)
      ensures Block(d, |vertices|) == ShortestDistances(AdjacencyMatrix(|vertices|))
      ensures e[..] == Eccentricities(ShortestDistances(AdjacencyMatrix(|vertices|)))
      ensures rad == RunningMin(INF, e[..]) && diam == RunningMax(0, e[..])
      ensures center == GetCenter(e[..], rad)
      ensures forall i :: 0 <= i < e.Length ==> rad <= e[i] <= diam
      ensures 0 < |vertices| ==> center != []
    {
      var size := |vertices|;
      a, d := BuildDistances();
      e := GetEccentricityByNode(d);
      rad, diam := GetRadiusAndDiameter(e);
      assert e[..size] == e[..];
      center := GetCenter(e[..], rad);
      AdjacencyEccentricitiesBounded(size);
      if 0 < size {
        CenterOfRadius(e[..]);
      }
    }
  }
}
