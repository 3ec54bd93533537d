/**
 pixelGridToGraph: turns a rectangular grid of positive intensities into a
 resistor network over the cells that lie within a radius of the grid's centre.
 Nodes are the kept cells, numbered in row-major scan order; each node links to
 its kept up, down, left and right neighbours, and each link's resistance is the
 mean of the two cells' reciprocal intensities.
 */
module Utils {
  import opened GridMask

  /** Where a connection leads: a grid cell while the graph is built, a node id after the remap. */
  datatype Target = Cell(at: Coord) | Node(id: int)

  datatype Connection = Connection(to: Target, resistance: real)

  /** The record pixelGridToGraph returns. */
  datatype Circuit = Circuit(graph: seq<seq<Connection>>, borderNodes: seq<int>, nodeCoord: seq<Coord>)

  /** An empty grid makes the source fail when it reads the width of row 0. */
  datatype Result = Ok(circuit: Circuit) | EmptyGrid

  predicate Rectangular(grid: seq<seq<real>>)
  {
    forall i | 0 <= i < |grid| :: |grid[i]| == |grid[0]|
  }

  predicate PositiveIntensities(grid: seq<seq<real>>)
  {
    forall i, j | 0 <= i < |grid| && 0 <= j < |grid[i]| :: grid[i][j] > 0.0
  }

  predicate ValidGrid(grid: seq<seq<real>>)
  {
    Rectangular(grid) && PositiveIntensities(grid)
  }

  /** The rectangle of cells of a non-empty grid. */
  predicate OnGrid(grid: seq<seq<real>>, c: Coord)
  {
    |grid| > 0 && InBounds(c, |grid|, |grid[0]|)
  }

  /** The resistance of the link between cells a and b: the mean of their reciprocal intensities. */
  function Resistance(grid: seq<seq<real>>, a: Coord, b: Coord): (r: real)
    requires ValidGrid(grid) && OnGrid(grid, a) && OnGrid(grid, b)
    ensures r > 0.0
  {
    (1.0 / grid[a.x][a.y] + 1.0 / grid[b.x][b.y]) / 2.0
  }

  /** A link's resistance is positive and does not depend on the direction it is read in. */
  lemma ResistanceSymmetricPositive(grid: seq<seq<real>>, a: Coord, b: Coord)
    requires ValidGrid(grid) && OnGrid(grid, a) && OnGrid(grid, b)
    ensures Resistance(grid, a, b) == Resistance(grid, b, a)
    ensures Resistance(grid, a, b) > 0.0
  {
    assert grid[a.x][a.y] > 0.0 && grid[b.x][b.y] > 0.0;
  }

  predicate StrictlyIncreasing(s: seq<int>)
  {
    forall p, q | 0 <= p < q < |s| :: s[p] < s[q]
  }

  /**
   The connections of the node at kept cell c before the remap: one per kept
   neighbour, in the order up, down, left, right, each naming that neighbour's cell.
   */
  ghost predicate RawLinks(grid: seq<seq<real>>, radius: real, c: Coord, links: seq<Connection>)
    requires ValidGrid(grid) && OnGrid(grid, c)
  {
    IsRaw(grid, c, KeptNeighbours(|grid|, |grid[0]|, radius, c), links)
  }

  /**
   The connections of node k after the remap: one per kept neighbour of its cell,
   in the order up, down, left, right, each naming the id of that neighbour's node
   and carrying the mean-reciprocal resistance.
   */
  ghost predicate Links(grid: seq<seq<real>>, radius: real, nodeCoord: seq<Coord>, k: int, links: seq<Connection>)
    requires ValidGrid(grid) && |grid| > 0 && 0 <= k < |nodeCoord|
    requires Kept(|grid|, |grid[0]|, radius, nodeCoord[k])
  {
    var c := nodeCoord[k];
    var ns := KeptNeighbours(|grid|, |grid[0]|, radius, c);
    |links| == |ns| &&
    forall m | 0 <= m < |links| ::
      && links[m].to.Node?
      && 0 <= links[m].to.id < |nodeCoord|
      && nodeCoord[links[m].to.id] == ns[m]
      && links[m].resistance == Resistance(grid, c, ns[m])
  }

  /**
   What pixelGridToGraph produces for grid and radius: node k sits at the k-th kept
   cell in row-major order, its links are as Links says, and borderNodes lists, in
   increasing order, exactly the nodes with fewer than four links.
   */
  ghost predicate WellBuilt(grid: seq<seq<real>>, radius: real, out: Circuit)
    requires ValidGrid(grid) && |grid| > 0
  {
    && out.nodeCoord == KeptCells(|grid|, |grid[0]|, radius)
    && |out.graph| == |out.nodeCoord|
    && (forall k | 0 <= k < |out.graph| :: Links(grid, radius, out.nodeCoord, k, out.graph[k]))
    && StrictlyIncreasing(out.borderNodes)
    && (forall k :: k in out.borderNodes <==> 0 <= k < |out.graph| && |out.graph[k]| < 4)
  }

  /**
   The source's per-node step: tries the neighbours up, down, left and right of
   the kept cell (i, j) and adds a connection to each one that is in the grid and
   within the radius, counting them.
   */
  method ConnectNode(pixelGrid: seq<seq<real>>, radius: real, center: Coord, i: int, j: int)
    returns (node: seq<Connection>, connectionCount: int)
    requires ValidGrid(pixelGrid) && |pixelGrid| > 0
    requires center == Center(|pixelGrid|, |pixelGrid[0]|)
    requires Kept(|pixelGrid|, |pixelGrid[0]|, radius, Coord(i, j))
    ensures RawLinks(pixelGrid, radius, Coord(i, j), node)
    ensures connectionCount == |node|
  {
    var rows, cols := |pixelGrid|, |pixelGrid[0]|;
    ghost var a := Around(Coord(i, j));
    ghost var ns: seq<Coord> := [];
    node := [];
    connectionCount := 0;
    if i - 1 >= 0 && WithinRadius(Coord(i - 1, j), center, radius) {
      RawAppend(pixelGrid, Coord(i, j), ns, node, a[0]);
      node := node + [Connection(Cell(Coord(i - 1, j)), Resistance(pixelGrid, Coord(i, j), Coord(i - 1, j)))];
      ns := ns + [a[0]];
      connectionCount := connectionCount + 1;
    }
    assert ns == KeepIf(rows, cols, radius, a[0]);
    ghost var up := ns;
    if i + 1 < rows && WithinRadius(Coord(i + 1, j), center, radius) {
      RawAppend(pixelGrid, Coord(i, j), ns, node, a[1]);
      node := node + [Connection(Cell(Coord(i + 1, j)), Resistance(pixelGrid, Coord(i, j), Coord(i + 1, j)))];
      ns := ns + [a[1]];
      connectionCount := connectionCount + 1;
    }
    assert ns == up + KeepIf(rows, cols, radius, a[1]);
    ghost var down := ns;
    if j - 1 >= 0 && WithinRadius(Coord(i, j - 1), center, radius) {
      RawAppend(pixelGrid, Coord(i, j), ns, node, a[2]);
      node := node + [Connection(Cell(Coord(i, j - 1)), Resistance(pixelGrid, Coord(i, j), Coord(i, j - 1)))];
      ns := ns + [a[2]];
      connectionCount := connectionCount + 1;
    }
    assert ns == down + KeepIf(rows, cols, radius, a[2]);
    ghost var left := ns;
    if j + 1 < cols && WithinRadius(Coord(i, j + 1), center, radius) {
      RawAppend(pixelGrid, Coord(i, j), ns, node, a[3]);
      node := node + [Connection(Cell(Coord(i, j + 1)), Resistance(pixelGrid, Coord(i, j), Coord(i, j + 1)))];
      ns := ns + [a[3]];
      connectionCount := connectionCount + 1;
    }
    assert ns == left + KeepIf(rows, cols, radius, a[3]);
    assert ns == KeptNeighbours(rows, cols, radius, Coord(i, j));
  }

  /** Appending the connection towards cell n keeps links the raw connections towards ns + [n]. */
  lemma RawAppend(grid: seq<seq<real>>, c: Coord, ns: seq<Coord>, links: seq<Connection>, n: Coord)
    requires ValidGrid(grid) && OnGrid(grid, c) && OnGrid(grid, n) && IsRaw(grid, c, ns, links)
    ensures IsRaw(grid, c, ns + [n], links + [Connection(Cell(n), Resistance(grid, c, n))])
  {
    var ns', links' := ns + [n], links + [Connection(Cell(n), Resistance(grid, c, n))];
    forall m | 0 <= m < |links'| ensures OnGrid(grid, ns'[m]) && links'[m] == Connection(Cell(ns'[m]), Resistance(grid, c, ns'[m])) {
      if m < |links| {
        assert ns'[m] == ns[m] && links'[m] == links[m];
      }
    }
  }

  /** links are the raw connections from cell c to the cells ns, in that order. */
  ghost predicate IsRaw(grid: seq<seq<real>>, c: Coord, ns: seq<Coord>, links: seq<Connection>)
    requires ValidGrid(grid) && OnGrid(grid, c)
  {
    |links| == |ns| &&
    forall m | 0 <= m < |links| ::
      OnGrid(grid, ns[m]) && links[m] == Connection(Cell(ns[m]), Resistance(grid, c, ns[m]))
  }

  /**
   The connections of node k. Naming them gives RawGraph's quantifier a trigger
   of its own, so that it is instantiated only where a proof asks for node k.
   */
  ghost function LinksOf(graph: seq<seq<Connection>>, k: int): (links: seq<Connection>)
    requires 0 <= k < |graph|
  {
    graph[k]
  }

  /** Nodes 0 .. |graph| - 1 sit at grid cells and hold their raw connections. */
  ghost predicate RawGraph(grid: seq<seq<real>>, radius: real, graph: seq<seq<Connection>>, nodeCoord: seq<Coord>)
    requires ValidGrid(grid) && |grid| > 0
  {
    && |graph| == |nodeCoord|
    && forall k {:trigger LinksOf(graph, k)} | 0 <= k < |graph| ::
         OnGrid(grid, nodeCoord[k]) && RawLinks(grid, radius, nodeCoord[k], LinksOf(graph, k))
  }

  /** borderNodes lists, in increasing order, exactly the nodes with fewer than four connections. */
  ghost predicate BorderList(graph: seq<seq<Connection>>, borderNodes: seq<int>)
  {
    && StrictlyIncreasing(borderNodes)
    && (forall k :: k in borderNodes <==> 0 <= k < |graph| && |graph[k]| < 4)
  }

  /** coordDict maps the cell of each node to that node's id. */
  ghost predicate IndexOf(nodeCoord: seq<Coord>, coordDict: map<Coord, int>)
  {
    && (forall d :: d in coordDict <==> d in nodeCoord)
    && (forall d | d in coordDict :: 0 <= coordDict[d] < |nodeCoord| && nodeCoord[coordDict[d]] == d)
  }

  /** What the first pass has built once it has scanned the cells before the next one. */
  ghost predicate FirstPass(grid: seq<seq<real>>, radius: real, graph: seq<seq<Connection>>,
                            nodeCoord: seq<Coord>, graphID: int, coordDict: map<Coord, int>,
                            borderNodes: seq<int>)
    requires ValidGrid(grid) && |grid| > 0
  {
    && graphID == |graph|
    && RawGraph(grid, radius, graph, nodeCoord)
    && BorderList(graph, borderNodes)
    && IndexOf(nodeCoord, coordDict)
  }

  /** The first pass adds the node at kept cell c with its raw connections. */
  lemma FirstPassAdd(grid: seq<seq<real>>, radius: real, graph: seq<seq<Connection>>,
                     nodeCoord: seq<Coord>, graphID: int, coordDict: map<Coord, int>,
                     borderNodes: seq<int>, c: Coord, node: seq<Connection>)
    requires ValidGrid(grid) && |grid| > 0
    requires FirstPass(grid, radius, graph, nodeCoord, graphID, coordDict, borderNodes)
    requires OnGrid(grid, c) && RawLinks(grid, radius, c, node)
    ensures FirstPass(grid, radius, graph + [node], nodeCoord + [c], graphID + 1, coordDict[c := graphID],
                      if |node| < 4 then borderNodes + [graphID] else borderNodes)
  {
    AddNode(grid, radius, graph, nodeCoord, c, node);
    AddBorder(graph, graphID, borderNodes, node);
    AddCoord(nodeCoord, graphID, coordDict, c);
  }

  lemma AddNode(grid: seq<seq<real>>, radius: real, graph: seq<seq<Connection>>,
                nodeCoord: seq<Coord>, c: Coord, node: seq<Connection>)
    requires ValidGrid(grid) && |grid| > 0 && RawGraph(grid, radius, graph, nodeCoord)
    requires OnGrid(grid, c) && RawLinks(grid, radius, c, node)
    ensures RawGraph(grid, radius, graph + [node], nodeCoord + [c])
  {
    var graph', nodeCoord' := graph + [node], nodeCoord + [c];
    forall k | 0 <= k < |graph'|
      ensures OnGrid(grid, nodeCoord'[k]) && RawLinks(grid, radius, nodeCoord'[k], LinksOf(graph', k))
    {
      if k < |graph| {
        assert nodeCoord'[k] == nodeCoord[k] && LinksOf(graph', k) == LinksOf(graph, k);
      }
    }
  }

  lemma AddBorder(graph: seq<seq<Connection>>, graphID: int, borderNodes: seq<int>, node: seq<Connection>)
    requires |graph| == graphID && BorderList(graph, borderNodes)
    ensures BorderList(graph + [node], if |node| < 4 then borderNodes + [graphID] else borderNodes)
  {
    var graph', border' := graph + [node], if |node| < 4 then borderNodes + [graphID] else borderNodes;
    forall p, q | 0 <= p < q < |border'| ensures border'[p] < border'[q] {
      if q == |borderNodes| {
        assert border'[p] == borderNodes[p] && borderNodes[p] in borderNodes;
      } else {
        assert border'[p] == borderNodes[p] && border'[q] == borderNodes[q];
      }
    }
    forall k ensures k in border' <==> 0 <= k < |graph'| && |graph'[k]| < 4 {
      if k == graphID {
        assert k !in borderNodes;
      } else if 0 <= k < |graph| {
        assert graph'[k] == graph[k];
      }
    }
  }

  lemma AddCoord(nodeCoord: seq<Coord>, graphID: int, coordDict: map<Coord, int>, c: Coord)
    requires |nodeCoord| == graphID && IndexOf(nodeCoord, coordDict)
    ensures IndexOf(nodeCoord + [c], coordDict[c := graphID])
  {
    var nodeCoord', dict' := nodeCoord + [c], coordDict[c := graphID];
    forall d | d in dict' ensures 0 <= dict'[d] < |nodeCoord'| && nodeCoord'[dict'[d]] == d {
      if d != c {
        assert nodeCoord'[coordDict[d]] == nodeCoord[coordDict[d]];
      }
    }
    assert forall d :: d in nodeCoord' <==> d in nodeCoord || d == c;
  }

  /** Every connection of raw leads to a cell that coordDict holds. */
  predicate TargetsIndexed(raw: seq<seq<Connection>>, coordDict: map<Coord, int>)
  {
    forall k, m | 0 <= k < |raw| && 0 <= m < |raw[k]| :: raw[k][m].to.Cell? && raw[k][m].to.at in coordDict
  }

  /**
   The source's second pass: rewrites the target of every connection from a
   grid cell into the id that coordDict gives that cell, and changes nothing else.
   */
  method RemapTargets(raw: seq<seq<Connection>>, coordDict: map<Coord, int>) returns (graph: seq<seq<Connection>>)
    requires TargetsIndexed(raw, coordDict)
    ensures |graph| == |raw|
    ensures forall k | 0 <= k < |raw| :: |graph[k]| == |raw[k]|
    ensures forall k, m | 0 <= k < |raw| && 0 <= m < |raw[k]| ::
              graph[k][m] == Connection(Node(coordDict[raw[k][m].to.at]), raw[k][m].resistance)
  {
    graph := raw;
    var k := 0;
    while k < |graph|
      invariant 0 <= k <= |graph| == |raw|
      invariant forall t | 0 <= t < |raw| :: |graph[t]| == |raw[t]|
      invariant forall t, m | 0 <= t < k && 0 <= m < |raw[t]| ::
                  graph[t][m] == Connection(Node(coordDict[raw[t][m].to.at]), raw[t][m].resistance)
      invariant forall t | k <= t < |raw| :: graph[t] == raw[t]
    {
      var node := graph[k];
      var m := 0;
      while m < |node|
        invariant 0 <= m <= |node| == |raw[k]|
        invariant forall n | 0 <= n < m :: node[n] == Connection(Node(coordDict[raw[k][n].to.at]), raw[k][n].resistance)
        invariant forall n | m <= n < |node| :: node[n] == raw[k][n]
      {
        node := node[m := node[m].(to := Node(coordDict[node[m].to.at]))];
        m := m + 1;
      }
      graph := graph[k := node];
      k := k + 1;
    }
  }

  /** After the remap, node k's connections name the ids of its kept neighbours. */
  lemma RemapGivesLinks(grid: seq<seq<real>>, radius: real, raw: seq<seq<Connection>>,
                        graph: seq<seq<Connection>>, nodeCoord: seq<Coord>, coordDict: map<Coord, int>, k: int)
    requires ValidGrid(grid) && |grid| > 0 && RawGraph(grid, radius, raw, nodeCoord)
    requires nodeCoord == KeptCells(|grid|, |grid[0]|, radius)
    requires IndexOf(nodeCoord, coordDict) && TargetsIndexed(raw, coordDict)
    requires |graph| == |raw| && 0 <= k < |raw| && |graph[k]| == |raw[k]|
    requires forall m | 0 <= m < |raw[k]| ::
               graph[k][m] == Connection(Node(coordDict[raw[k][m].to.at]), raw[k][m].resistance)
    ensures Links(grid, radius, nodeCoord, k, graph[k])
  {
    assert RawLinks(grid, radius, nodeCoord[k], LinksOf(raw, k));
    assert nodeCoord[k] in nodeCoord;
  }

  /** Once the first pass is complete, every connection leads to a cell that has a node. */
  lemma TargetsAreIndexed(grid: seq<seq<real>>, radius: real, raw: seq<seq<Connection>>,
                          nodeCoord: seq<Coord>, coordDict: map<Coord, int>)
    requires ValidGrid(grid) && |grid| > 0
    requires nodeCoord == KeptCells(|grid|, |grid[0]|, radius)
    requires RawGraph(grid, radius, raw, nodeCoord) && IndexOf(nodeCoord, coordDict)
    ensures TargetsIndexed(raw, coordDict)
  {
    forall t, m | 0 <= t < |raw| && 0 <= m < |raw[t]| ensures raw[t][m].to.Cell? && raw[t][m].to.at in coordDict {
      assert RawLinks(grid, radius, nodeCoord[t], LinksOf(raw, t));
    }
  }

  /** The remapped graph, with the node listing and border list of the first pass, is the circuit. */
  lemma SecondPassBuilds(grid: seq<seq<real>>, radius: real, raw: seq<seq<Connection>>,
                         graph: seq<seq<Connection>>, nodeCoord: seq<Coord>, coordDict: map<Coord, int>,
                         borderNodes: seq<int>)
    requires ValidGrid(grid) && |grid| > 0
    requires nodeCoord == KeptCells(|grid|, |grid[0]|, radius)
    requires RawGraph(grid, radius, raw, nodeCoord) && IndexOf(nodeCoord, coordDict)
    requires BorderList(raw, borderNodes) && TargetsIndexed(raw, coordDict)
    requires |graph| == |raw| && forall k | 0 <= k < |raw| :: |graph[k]| == |raw[k]|
    requires forall k, m | 0 <= k < |raw| && 0 <= m < |raw[k]| ::
               graph[k][m] == Connection(Node(coordDict[raw[k][m].to.at]), raw[k][m].resistance)
    ensures WellBuilt(grid, radius, Circuit(graph, borderNodes, nodeCoord))
  {
    forall k | 0 <= k < |graph| ensures Links(grid, radius, nodeCoord, k, graph[k]) {
      RemapGivesLinks(grid, radius, raw, graph, nodeCoord, coordDict, k);
    }
  }

  /**
   Builds the circuit of pixelGrid: one node per cell within radius of the centre,
   numbered in row-major order, linked to its kept 4-neighbours, with the
   border nodes listed; then rewrites every link target from a cell into a node id.
   */
  method PixelGridToGraph(pixelGrid: seq<seq<real>>, radius: real) returns (r: Result)
    requires ValidGrid(pixelGrid)
    ensures r.EmptyGrid? <==> |pixelGrid| == 0
    ensures r.Ok? ==> WellBuilt(pixelGrid, radius, r.circuit)
  {
    if |pixelGrid| == 0 {
      return EmptyGrid;
    }
    var rows, cols := |pixelGrid|, |pixelGrid[0]|;
    var graph: seq<seq<Connection>> := [];
    var nodeCoord: seq<Coord> := [];
    var graphID := 0;
    var center := Center(rows, cols);
    var coordDict: map<Coord, int> := map[];
    var borderNodes: seq<int> := [];

    var i := 0;
    while i < rows
      invariant 0 <= i <= rows
      invariant nodeCoord == Scanned(rows, cols, radius, i, 0)
      invariant FirstPass(pixelGrid, radius, graph, nodeCoord, graphID, coordDict, borderNodes)
    {
      var j := 0;
      while j < cols
        invariant 0 <= j <= cols
        invariant nodeCoord == Scanned(rows, cols, radius, i, j)
        invariant FirstPass(pixelGrid, radius, graph, nodeCoord, graphID, coordDict, borderNodes)
      {
        if WithinRadius(Coord(i, j), center, radius) {
          var node, connectionCount := ConnectNode(pixelGrid, radius, center, i, j);
          FirstPassAdd(pixelGrid, radius, graph, nodeCoord, graphID, coordDict, borderNodes, Coord(i, j), node);
          nodeCoord := nodeCoord + [Coord(i, j)];
          if connectionCount < 4 {
            borderNodes := borderNodes + [graphID];
          }
          graph := graph + [node];
          coordDict := coordDict[Coord(i, j) := graphID];
          graphID := graphID + 1;
        }
        j := j + 1;
      }
      i := i + 1;
    }
    ghost var raw := graph;
    TargetsAreIndexed(pixelGrid, radius, raw, nodeCoord, coordDict);
    graph := RemapTargets(graph, coordDict);
    SecondPassBuilds(pixelGrid, radius, raw, graph, nodeCoord, coordDict, borderNodes);
    return Ok(Circuit(graph, borderNodes, nodeCoord));
  }
}
