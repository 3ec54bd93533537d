/**
 Properties of every circuit pixelGridToGraph builds: valid and symmetric links,
 bounded degree, positive resistances, the border list, dense ids, the empty
 circuit for a negative radius, and uniqueness of the result.
 */
module CircuitProperties {
  import opened GridMask
  import opened Utils

  /**
   After the remap every link target is a valid node id, the node at that id
   sits at a 4-neighbour of the linking node's cell, and no node links twice to
   the same node.
   */
  lemma TargetsAreNeighbourIds(grid: seq<seq<real>>, radius: real, out: Circuit, k: int)
    requires ValidGrid(grid) && |grid| > 0 && WellBuilt(grid, radius, out)
    requires 0 <= k < |out.graph|
    ensures forall m | 0 <= m < |out.graph[k]| ::
              && out.graph[k][m].to.Node?
              && 0 <= out.graph[k][m].to.id < |out.graph|
              && Adjacent(out.nodeCoord[k], out.nodeCoord[out.graph[k][m].to.id])
    ensures forall m, n | 0 <= m < n < |out.graph[k]| :: out.graph[k][m].to != out.graph[k][n].to
  {
    var ns := KeptNeighbours(|grid|, |grid[0]|, radius, out.nodeCoord[k]);
    assert Links(grid, radius, out.nodeCoord, k, out.graph[k]);
    forall m | 0 <= m < |out.graph[k]|
      ensures Adjacent(out.nodeCoord[k], out.nodeCoord[out.graph[k][m].to.id])
    {
      assert ns[m] in ns;
    }
  }

  /**
   Links are symmetric: when node k links to node t, node t links back to k with
   the same resistance.
   */
  lemma LinksAreSymmetric(grid: seq<seq<real>>, radius: real, out: Circuit, k: int, m: int)
    requires ValidGrid(grid) && |grid| > 0 && WellBuilt(grid, radius, out)
    requires 0 <= k < |out.graph| && 0 <= m < |out.graph[k]|
    ensures out.graph[k][m].to.Node? && 0 <= out.graph[k][m].to.id < |out.graph|
    ensures exists n | 0 <= n < |out.graph[out.graph[k][m].to.id]| ::
              out.graph[out.graph[k][m].to.id][n] == Connection(Node(k), out.graph[k][m].resistance)
  {
    var rows, cols := |grid|, |grid[0]|;
    var c := out.nodeCoord[k];
    assert Links(grid, radius, out.nodeCoord, k, out.graph[k]);
    var t := out.graph[k][m].to.id;
    var d := out.nodeCoord[t];
    assert d == KeptNeighbours(rows, cols, radius, c)[m];
    assert Adjacent(c, d) && Kept(rows, cols, radius, d);
    assert Adjacent(d, c) && Kept(rows, cols, radius, c);
    var back := KeptNeighbours(rows, cols, radius, d);
    assert c in back;
    var n :| 0 <= n < |back| && back[n] == c;
    assert Links(grid, radius, out.nodeCoord, t, out.graph[t]);
    var link := out.graph[t][n];
    assert out.nodeCoord[link.to.id] == c;
    SortedIndexUnique(out.nodeCoord, link.to.id, k);
    ResistanceSymmetricPositive(grid, c, d);
    assert link == Connection(Node(k), out.graph[k][m].resistance);
  }

  /**
   Every link's resistance is the mean of the reciprocal intensities of the two
   cells it joins, and is positive.
   */
  lemma ResistancesArePositive(grid: seq<seq<real>>, radius: real, out: Circuit, k: int, m: int)
    requires ValidGrid(grid) && |grid| > 0 && WellBuilt(grid, radius, out)
    requires 0 <= k < |out.graph| && 0 <= m < |out.graph[k]|
    ensures out.graph[k][m].to.Node? && 0 <= out.graph[k][m].to.id < |out.nodeCoord|
    ensures OnGrid(grid, out.nodeCoord[k]) && OnGrid(grid, out.nodeCoord[out.graph[k][m].to.id])
    ensures out.graph[k][m].resistance == Resistance(grid, out.nodeCoord[k], out.nodeCoord[out.graph[k][m].to.id])
    ensures out.graph[k][m].resistance > 0.0
  {
    var c := out.nodeCoord[k];
    var ns := KeptNeighbours(|grid|, |grid[0]|, radius, c);
    assert Links(grid, radius, out.nodeCoord, k, out.graph[k]);
    assert ns[m] in ns;
    assert c in out.nodeCoord;
    ResistanceSymmetricPositive(grid, c, ns[m]);
  }

  /**
   Every node has at most four links; once the radius reaches one and the grid
   is more than a single cell, every node has at least one.
   */
  lemma DegreeBounds(grid: seq<seq<real>>, radius: real, out: Circuit, k: int)
    requires ValidGrid(grid) && |grid| > 0 && WellBuilt(grid, radius, out)
    requires 0 <= k < |out.graph|
    ensures |out.graph[k]| <= 4
    ensures 1.0 <= radius && (|grid| >= 2 || |grid[0]| >= 2) ==> |out.graph[k]| >= 1
  {
    assert Links(grid, radius, out.nodeCoord, k, out.graph[k]);
    assert out.nodeCoord[k] in out.nodeCoord;
    if 1.0 <= radius && (|grid| >= 2 || |grid[0]| >= 2) {
      HasKeptNeighbour(|grid|, |grid[0]|, radius, out.nodeCoord[k]);
    }
  }

  /**
   borderNodes is strictly increasing and holds node k exactly when some
   4-neighbour of k's cell lies outside the grid or outside the circle.
   */
  lemma BorderNodesTouchTheEdge(grid: seq<seq<real>>, radius: real, out: Circuit, k: int)
    requires ValidGrid(grid) && |grid| > 0 && WellBuilt(grid, radius, out)
    ensures StrictlyIncreasing(out.borderNodes)
    ensures k in out.borderNodes <==>
            0 <= k < |out.graph| && exists n :: Adjacent(out.nodeCoord[k], n) && !Kept(|grid|, |grid[0]|, radius, n)
  {
    if 0 <= k < |out.graph| {
      assert Links(grid, radius, out.nodeCoord, k, out.graph[k]);
      FewLinksOnlyAtTheEdge(|grid|, |grid[0]|, radius, out.nodeCoord[k]);
    }
  }

  /** Ids are dense: there is one node per kept cell, and one link list and one cell per node. */
  lemma IdsAreDense(grid: seq<seq<real>>, radius: real, out: Circuit)
    requires ValidGrid(grid) && |grid| > 0 && WellBuilt(grid, radius, out)
    ensures |out.graph| == |out.nodeCoord| == |KeptSet(|grid|, |grid[0]|, radius)|
  {
    KeptCellsCount(|grid|, |grid[0]|, radius);
  }

  /** A negative radius yields no nodes, no links and no border nodes. */
  lemma NegativeRadiusIsEmpty(grid: seq<seq<real>>, radius: real, out: Circuit)
    requires ValidGrid(grid) && |grid| > 0 && WellBuilt(grid, radius, out)
    requires radius < 0.0
    ensures out == Circuit([], [], [])
  {
    NegativeRadiusKeepsNothing(|grid|, |grid[0]|, radius);
    assert |out.graph| == 0;
    assert forall x :: x !in out.borderNodes;
    EmptyIffNoMembers(out.borderNodes);
  }

  /** A list is empty exactly when it has no members. */
  lemma EmptyIffNoMembers<T>(s: seq<T>)
    ensures s == [] <==> forall x :: x !in s
  {
    if s != [] {
      assert s[0] in s;
    }
  }

  /** Two strictly increasing lists with the same members are equal. */
  lemma {:induction false} SameIncreasingLists(a: seq<int>, b: seq<int>)
    requires StrictlyIncreasing(a) && StrictlyIncreasing(b)
    requires forall x :: x in a <==> x in b
    ensures a == b
  {
    EmptyIffNoMembers(a);
    EmptyIffNoMembers(b);
    if a != [] && b != [] {
      assert a[0] == b[0] by {
        assert a[0] in a && b[0] in b;
        var i :| 0 <= i < |a| && a[i] == b[0];
        var j :| 0 <= j < |b| && b[j] == a[0];
        assert a[0] <= a[i] && b[0] <= b[j];
      }
      forall x ensures x in a[1..] <==> x in b[1..] {
        if x in a[1..] {
          assert x in b && x != b[0];
        }
        if x in b[1..] {
          assert x in a && x != a[0];
        }
      }
      SameIncreasingLists(a[1..], b[1..]);
      assert a == [a[0]] + a[1..] && b == [b[0]] + b[1..];
    } else {
      assert forall x :: x !in a && x !in b;
    }
  }

  /**
   The result is determined by the grid and the radius: any two circuits that
   both meet the description are equal, so repeated builds give the same ids.
   */
  lemma BuildIsDeterministic(grid: seq<seq<real>>, radius: real, a: Circuit, b: Circuit)
    requires ValidGrid(grid) && |grid| > 0
    requires WellBuilt(grid, radius, a) && WellBuilt(grid, radius, b)
    ensures a == b
  {
    var coords := a.nodeCoord;
    forall k | 0 <= k < |a.graph| ensures a.graph[k] == b.graph[k] {
      assert Links(grid, radius, coords, k, a.graph[k]);
      assert Links(grid, radius, coords, k, b.graph[k]);
      forall m | 0 <= m < |a.graph[k]| ensures a.graph[k][m] == b.graph[k][m] {
        SortedIndexUnique(coords, a.graph[k][m].to.id, b.graph[k][m].to.id);
      }
    }
    SameIncreasingLists(a.borderNodes, b.borderNodes);
  }
}
