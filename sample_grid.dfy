/** The mask of the source's 8 x 8 test grid with radius 4. */
module SampleMask {
  import opened GridMask

  /** The scan of the 8 x 8 mask with radius 4 keeps no cell of row 0 before (0, 4). */
  lemma SampleRowZeroStart(rows: nat, cols: nat, radius: real)
    requires rows == 8 && cols == 8 && radius == 4.0
    ensures Scanned(rows, cols, radius, 0, 4) == []
  {
    assert Scanned(rows, cols, radius, 0, 1) == [];
    assert Scanned(rows, cols, radius, 0, 2) == [];
    assert Scanned(rows, cols, radius, 0, 3) == [];
  }

  /** Of row 0 it keeps only (0, 4). */
  lemma SampleRowZero(rows: nat, cols: nat, radius: real)
    requires rows == 8 && cols == 8 && radius == 4.0
    ensures Scanned(rows, cols, radius, 1, 0) == [Coord(0, 4)]
  {
    SampleRowZeroStart(rows, cols, radius);
    assert Scanned(rows, cols, radius, 0, 5) == [Coord(0, 4)];
    assert Scanned(rows, cols, radius, 0, 6) == [Coord(0, 4)];
    assert Scanned(rows, cols, radius, 0, 7) == [Coord(0, 4)];
  }

  /** Before (1, 4) it has kept (0, 4), (1, 2) and (1, 3). */
  lemma SampleRowOneStart(rows: nat, cols: nat, radius: real)
    requires rows == 8 && cols == 8 && radius == 4.0
    ensures Scanned(rows, cols, radius, 1, 4) == [Coord(0, 4), Coord(1, 2), Coord(1, 3)]
  {
    SampleRowZero(rows, cols, radius);
    assert Scanned(rows, cols, radius, 1, 1) == [Coord(0, 4)];
    assert Scanned(rows, cols, radius, 1, 2) == [Coord(0, 4)];
    assert Scanned(rows, cols, radius, 1, 3) == [Coord(0, 4), Coord(1, 2)];
  }

  /** Node 0 of the sample sits at (0, 4) and node 3 at (1, 4). */
  lemma SampleCells(rows: nat, cols: nat, radius: real)
    requires rows == 8 && cols == 8 && radius == 4.0
    ensures var cells := KeptCells(rows, cols, radius);
            |cells| > 3 && cells[0] == Coord(0, 4) && cells[3] == Coord(1, 4)
  {
    SampleRowZeroStart(rows, cols, radius);
    SampleRowOneStart(rows, cols, radius);
    IdCountsEarlierCells(rows, cols, radius, Coord(0, 4));
    IdCountsEarlierCells(rows, cols, radius, Coord(1, 4));
  }
}

/**
 The sample of the source's unit test for pixelGridToGraph: an 8 x 8 grid of
 intensities with a radius of half its width.
 */
module SampleGrid {
  import opened GridMask
  import opened SampleMask
  import opened Utils
  import opened CircuitProperties

  /** The 8 x 8 grid of the source's test. */
  const Sample: seq<seq<real>> := [
    [1.0, 1.0, 23.0, 34.0, 34.0, 24.0, 1.0, 1.0],
    [1.0, 38.0, 36.0, 35.0, 35.0, 36.0, 39.0, 1.0],
    [23.0, 36.0, 35.0, 35.0, 35.0, 35.0, 36.0, 24.0],
    [33.0, 35.0, 35.0, 35.0, 35.0, 35.0, 35.0, 34.0],
    [33.0, 35.0, 35.0, 35.0, 35.0, 35.0, 35.0, 34.0],
    [24.0, 36.0, 35.0, 35.0, 35.0, 35.0, 36.0, 24.0],
    [1.0, 39.0, 36.0, 35.0, 35.0, 36.0, 39.0, 1.0],
    [1.0, 1.0, 24.0, 34.0, 34.0, 24.0, 1.0, 1.0]
  ]

  lemma SampleGridIsValid()
    ensures ValidGrid(Sample) && |Sample| == 8 && |Sample[0]| == 8
  {
  }

  lemma SampleFirstLink()
    ensures KeptNeighbours(8, 8, 4.0, Coord(0, 4)) == [Coord(1, 4)]
    ensures Resistance(Sample, Coord(0, 4), Coord(1, 4)) == 69.0 / 2380.0
  {
    SampleGridIsValid();
  }

  /**
   On the sample grid with radius 4 (half its width), node 0's first link goes
   to node 3 with resistance (1/34 + 1/35) / 2 = 69/2380, and every node has
   between one and four links.
   */
  lemma SampleGridCircuit(out: Circuit)
    requires ValidGrid(Sample) && WellBuilt(Sample, 4.0, out)
    ensures |out.graph| > 3 && |out.graph[0]| == 1
    ensures out.graph[0][0] == Connection(Node(3), 69.0 / 2380.0)
    ensures forall k | 0 <= k < |out.graph| :: 1 <= |out.graph[k]| <= 4
  {
    SampleGridIsValid();
    SampleCells(|Sample|, |Sample[0]|, 4.0);
    SampleFirstLink();
    var coords := out.nodeCoord;
    assert Links(Sample, 4.0, coords, 0, out.graph[0]);
    SortedIndexUnique(coords, out.graph[0][0].to.id, 3);
    forall k | 0 <= k < |out.graph| ensures 1 <= |out.graph[k]| <= 4 {
      DegreeBounds(Sample, 4.0, out, k);
    }
  }
}
