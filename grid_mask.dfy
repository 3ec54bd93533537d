/**
 The geometry of pixelGridToGraph: which cells of a rows x cols intensity grid
 become circuit nodes (the circular mask), the row-major order in which they are
 numbered, and which of their four neighbours they are linked to.
 */
module GridMask {

  /** A grid position. As in the source, x is the row index and y the column index. */
  datatype Coord = Coord(x: int, y: int)

  /** The centre of a rows x cols grid, (floor(rows / 2), floor(cols / 2)). */
  function Center(rows: nat, cols: nat): (c: Coord)
    ensures 0 <= c.x && (rows > 0 ==> c.x < rows)
    ensures 0 <= c.y && (cols > 0 ==> c.y < cols)
  {
    Coord(rows / 2, cols / 2)
  }

  function SquaredDistance(a: Coord, b: Coord): (d: int)
  {
    (a.x - b.x) * (a.x - b.x) + (a.y - b.y) * (a.y - b.y)
  }

  /**
   The source's test sqrt((x - cx)^2 + (y - cy)^2) <= radius, squared. A square
   root is never negative, so a negative radius admits nothing.
   */
  predicate WithinRadius(c: Coord, center: Coord, radius: real)
  {
    0.0 <= radius && SquaredDistance(c, center) as real <= radius * radius
  }

  /**
   The squared test agrees with the source's: for the non-negative root s of the
   squared distance, the cell is within the radius exactly when s <= radius.
   */
  lemma WithinRadiusIsRootTest(c: Coord, center: Coord, radius: real, s: real)
    requires 0.0 <= s && s * s == SquaredDistance(c, center) as real
    ensures WithinRadius(c, center, radius) <==> s <= radius
  {
    if 0.0 <= radius {
      SquaresOrdered(s, radius);
    }
  }

  /** Between non-negative reals, squaring keeps the order both ways. */
  lemma SquaresOrdered(x: real, y: real)
    requires 0.0 <= x && 0.0 <= y
    ensures x <= y <==> x * x <= y * y
  {
    var xy := x * y;
    if x <= y {
      assert x * x <= xy <= y * y;
    } else {
      assert y * y <= xy < x * x;
    }
  }

  predicate InBounds(c: Coord, rows: nat, cols: nat)
  {
    0 <= c.x < rows && 0 <= c.y < cols
  }

  /** A cell becomes a node: it lies in the grid and within radius of the centre. */
  predicate Kept(rows: nat, cols: nat, radius: real, c: Coord)
  {
    InBounds(c, rows, cols) && WithinRadius(c, Center(rows, cols), radius)
  }

  /** Row-major scan order: by row, then by column. */
  predicate Before(a: Coord, b: Coord)
  {
    a.x < b.x || (a.x == b.x && a.y < b.y)
  }

  predicate RowMajorSorted(s: seq<Coord>)
  {
    forall p, q | 0 <= p < q < |s| :: Before(s[p], s[q])
  }

  /** Cell n alone when it is kept, nothing otherwise. */
  function KeepIf(rows: nat, cols: nat, radius: real, n: Coord): (s: seq<Coord>)
  {
    if Kept(rows, cols, radius, n) then [n] else []
  }

  /**
   The kept cells the row-major scan has passed on reaching (i, j), in the order
   it met them; (i, cols) is the end of row i, the same point as (i + 1, 0).
   */
  function Scanned(rows: nat, cols: nat, radius: real, i: nat, j: nat): (s: seq<Coord>)
    requires j <= cols
    decreases i, j
  {
    if j > 0 then Scanned(rows, cols, radius, i, j - 1) + KeepIf(rows, cols, radius, Coord(i, j - 1))
    else if i > 0 then Scanned(rows, cols, radius, i - 1, cols)
    else []
  }

  /**
   Reference listing of the nodes: the kept cells in row-major scan order. It
   holds every kept cell and nothing else, each once, in strictly increasing order.
   */
  function KeptCells(rows: nat, cols: nat, radius: real): (cells: seq<Coord>)
    ensures RowMajorSorted(cells)
    ensures forall c :: c in cells <==> Kept(rows, cols, radius, c)
  {
    ScannedListing(rows, cols, radius, rows, 0);
    Scanned(rows, cols, radius, rows, 0)
  }

  /** The set of kept cells, independent of any order. */
  ghost function KeptSet(rows: nat, cols: nat, radius: real): set<Coord>
  {
    set x: int, y: int | 0 <= x < rows && 0 <= y < cols && Kept(rows, cols, radius, Coord(x, y))
      :: Coord(x, y)
  }

  lemma SortedConcat(s: seq<Coord>, t: seq<Coord>)
    requires RowMajorSorted(s) && RowMajorSorted(t)
    requires forall a, b | a in s && b in t :: Before(a, b)
    ensures RowMajorSorted(s + t)
  {
    forall p, q | 0 <= p < q < |s + t| ensures Before((s + t)[p], (s + t)[q]) {
      if q >= |s| && p < |s| {
        assert (s + t)[p] in s && (s + t)[q] in t;
      }
    }
  }

  /** A row-major sorted listing holds each cell at most once. */
  lemma SortedIndexUnique(s: seq<Coord>, p: int, q: int)
    requires RowMajorSorted(s)
    requires 0 <= p < |s| && 0 <= q < |s| && s[p] == s[q]
    ensures p == q
  {
  }

  /**
   What the scan has passed on reaching (i, j) is in scan order and holds exactly
   the kept cells before (i, j).
   */
  lemma {:induction false} ScannedListing(rows: nat, cols: nat, radius: real, i: nat, j: nat)
    requires j <= cols
    ensures RowMajorSorted(Scanned(rows, cols, radius, i, j))
    ensures forall c :: c in Scanned(rows, cols, radius, i, j) <==>
                        Kept(rows, cols, radius, c) && Before(c, Coord(i, j))
    decreases i, j
  {
    if j > 0 {
      var done, last := Scanned(rows, cols, radius, i, j - 1), KeepIf(rows, cols, radius, Coord(i, j - 1));
      ScannedListing(rows, cols, radius, i, j - 1);
      SortedConcat(done, last);
    } else if i > 0 {
      ScannedListing(rows, cols, radius, i - 1, cols);
    }
  }

  /** Within a row the scan only appends: what it has passed at column j stays a prefix later on. */
  lemma {:induction false} RowGrows(rows: nat, cols: nat, radius: real, i: nat, j: nat, later: nat)
    requires j <= later <= cols
    ensures Scanned(rows, cols, radius, i, j) <= Scanned(rows, cols, radius, i, later)
    decreases later - j
  {
    if j < later {
      RowGrows(rows, cols, radius, i, j + 1, later);
    }
  }

  /** Across rows too: what the scan has passed on reaching row i is a prefix of what it passes later. */
  lemma {:induction false} ScannedGrows(rows: nat, cols: nat, radius: real, i: nat, later: nat)
    requires i <= later
    ensures Scanned(rows, cols, radius, i, 0) <= Scanned(rows, cols, radius, later, 0)
    decreases later - i
  {
    if i < later {
      RowGrows(rows, cols, radius, i, 0, cols);
      ScannedGrows(rows, cols, radius, i + 1, later);
    }
  }

  /**
   The id of a kept cell is the number of kept cells the scan passes before it:
   the listing holds c at exactly that index.
   */
  lemma IdCountsEarlierCells(rows: nat, cols: nat, radius: real, c: Coord)
    requires Kept(rows, cols, radius, c)
    ensures |Scanned(rows, cols, radius, c.x, c.y)| < |KeptCells(rows, cols, radius)|
    ensures KeptCells(rows, cols, radius)[|Scanned(rows, cols, radius, c.x, c.y)|] == c
  {
    var before := Scanned(rows, cols, radius, c.x, c.y);
    var upTo := Scanned(rows, cols, radius, c.x, c.y + 1);
    assert upTo == before + [c];
    RowGrows(rows, cols, radius, c.x, c.y + 1, cols);
    ScannedGrows(rows, cols, radius, c.x + 1, rows);
    assert upTo <= KeptCells(rows, cols, radius);
    assert upTo[|before|] == c;
  }

  lemma {:induction false} SortedCardinality(s: seq<Coord>)
    requires RowMajorSorted(s)
    ensures |set c | c in s| == |s|
  {
    if s != [] {
      SortedCardinality(s[1..]);
      assert (set c | c in s) == {s[0]} + (set c | c in s[1..]);
      if s[0] in s[1..] {
        var p :| 0 <= p < |s[1..]| && s[1..][p] == s[0];
        SortedIndexUnique(s, 0, p + 1);
      }
    }
  }

  /** Ids are dense: there are exactly as many nodes as kept cells. */
  lemma KeptCellsCount(rows: nat, cols: nat, radius: real)
    ensures |KeptCells(rows, cols, radius)| == |KeptSet(rows, cols, radius)|
  {
    var s := KeptCells(rows, cols, radius);
    SortedCardinality(s);
    assert (set c | c in s) == KeptSet(rows, cols, radius);
  }

  /** The centre cell of a grid with at least one column is a node for every radius >= 0. */
  lemma CenterIsKept(rows: nat, cols: nat, radius: real)
    requires rows > 0 && cols > 0 && 0.0 <= radius
    ensures Center(rows, cols) in KeptCells(rows, cols, radius)
  {
    assert SquaredDistance(Center(rows, cols), Center(rows, cols)) == 0;
  }

  /** With a negative radius no cell is kept. */
  lemma NegativeRadiusKeepsNothing(rows: nat, cols: nat, radius: real)
    requires radius < 0.0
    ensures KeptCells(rows, cols, radius) == []
  {
    var s := KeptCells(rows, cols, radius);
    assert |s| > 0 ==> s[0] in s && !Kept(rows, cols, radius, s[0]);
  }

  /** The four neighbours of c, in the order the source tries them: up, down, left, right. */
  function Around(c: Coord): (ns: seq<Coord>)
  {
    [Coord(c.x - 1, c.y), Coord(c.x + 1, c.y), Coord(c.x, c.y - 1), Coord(c.x, c.y + 1)]
  }

  predicate Adjacent(a: Coord, b: Coord)
  {
    (a.x == b.x && (a.y - b.y == 1 || b.y - a.y == 1)) ||
    (a.y == b.y && (a.x - b.x == 1 || b.x - a.x == 1))
  }

  /**
   The neighbours of c that are themselves kept, in the order up, down, left,
   right: at most four, each listed once, and a link exists exactly for each
   adjacent cell that is kept.
   */
  function KeptNeighbours(rows: nat, cols: nat, radius: real, c: Coord): (ns: seq<Coord>)
    ensures |ns| <= 4
    ensures forall n | n in ns :: Adjacent(c, n) && Kept(rows, cols, radius, n)
    ensures forall n {:trigger Adjacent(c, n)} | Adjacent(c, n) && Kept(rows, cols, radius, n) :: n in ns
    ensures forall p, q | 0 <= p < q < |ns| :: ns[p] != ns[q]
  {
    var a := Around(c);
    KeepIf(rows, cols, radius, a[0]) + KeepIf(rows, cols, radius, a[1]) +
    KeepIf(rows, cols, radius, a[2]) + KeepIf(rows, cols, radius, a[3])
  }

  /**
   A node has fewer than four links exactly when one of its four neighbours lies
   outside the grid or outside the circle.
   */
  lemma FewLinksOnlyAtTheEdge(rows: nat, cols: nat, radius: real, c: Coord)
    ensures |KeptNeighbours(rows, cols, radius, c)| < 4 <==>
            exists n :: Adjacent(c, n) && !Kept(rows, cols, radius, n)
  {
    var a := Around(c);
    if |KeptNeighbours(rows, cols, radius, c)| < 4 {
      if !Kept(rows, cols, radius, a[0]) {
        assert Adjacent(c, a[0]);
      } else if !Kept(rows, cols, radius, a[1]) {
        assert Adjacent(c, a[1]);
      } else if !Kept(rows, cols, radius, a[2]) {
        assert Adjacent(c, a[2]);
      } else {
        assert Adjacent(c, a[3]);
      }
    } else {
      forall n | Adjacent(c, n) ensures Kept(rows, cols, radius, n) {
        assert n in a;
      }
    }
  }

  /** One step towards the centre along an axis does not increase the squared offset. */
  lemma StepInward(t: int)
    requires t != 0
    ensures (if t > 0 then (t - 1) * (t - 1) else (t + 1) * (t + 1)) < t * t
  {
    if t > 0 {
      calc {
        (t - 1) * (t - 1);
        t * t - 2 * t + 1;
      }
    } else {
      calc {
        (t + 1) * (t + 1);
        t * t + 2 * t + 1;
      }
    }
  }

  /** The neighbour of c one step towards the centre m, along the rows if c is off m's row. */
  function Inward(c: Coord, m: Coord): (n: Coord)
  {
    if c.x > m.x then Coord(c.x - 1, c.y)
    else if c.x < m.x then Coord(c.x + 1, c.y)
    else if c.y > m.y then Coord(c.x, c.y - 1)
    else Coord(c.x, c.y + 1)
  }

  lemma InwardIsCloser(c: Coord, m: Coord)
    requires c != m
    ensures Adjacent(c, Inward(c, m))
    ensures SquaredDistance(Inward(c, m), m) < SquaredDistance(c, m)
  {
    var n := Inward(c, m);
    var dx, dy := c.x - m.x, c.y - m.y;
    if dx != 0 {
      StepInward(dx);
      assert n.x - m.x == (if dx > 0 then dx - 1 else dx + 1);
      assert n.y - m.y == dy;
    } else {
      StepInward(dy);
      assert n.x - m.x == dx;
      assert n.y - m.y == (if dy > 0 then dy - 1 else dy + 1);
    }
  }

  /** A cell no farther from the centre than a kept one is within the radius too. */
  lemma CloserIsWithin(n: Coord, c: Coord, center: Coord, radius: real)
    requires WithinRadius(c, center, radius)
    requires SquaredDistance(n, center) <= SquaredDistance(c, center) || (SquaredDistance(n, center) == 1 && 1.0 <= radius)
    ensures WithinRadius(n, center, radius)
  {
    if SquaredDistance(n, center) == 1 && 1.0 <= radius {
      assert radius * radius >= radius * 1.0;
    }
  }

  /**
   Once the radius reaches one and the grid is not a single cell, every kept cell
   has a kept neighbour: a step towards the centre, or away from it for the centre
   itself.
   */
  lemma HasKeptNeighbour(rows: nat, cols: nat, radius: real, c: Coord)
    requires Kept(rows, cols, radius, c)
    requires 1.0 <= radius && (rows >= 2 || cols >= 2)
    ensures |KeptNeighbours(rows, cols, radius, c)| >= 1
  {
    var m := Center(rows, cols);
    var n: Coord;
    if c != m {
      InwardIsCloser(c, m);
      n := Inward(c, m);
      assert InBounds(n, rows, cols);
    } else if rows >= 2 {
      n := Coord(c.x - 1, c.y);
      assert SquaredDistance(n, m) == 1;
    } else {
      n := Coord(c.x, c.y - 1);
      assert SquaredDistance(n, m) == 1;
    }
    CloserIsWithin(n, c, m, radius);
    assert Adjacent(c, n) && Kept(rows, cols, radius, n);
    assert n in KeptNeighbours(rows, cols, radius, c);
  }
}
