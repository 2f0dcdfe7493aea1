/** The disk-shaped structuring element both pipeline variants build with
    `np.mgrid`: an i-by-i boolean grid that is true where the squared distance
    to the pixel (i/2, i/2) is at most (i/2)^2, i/2 rounded down.
 */
module Disk {
  import opened Grids

  /** Disk sizes the pipelines use: the neighbourhood of the local-mean
      background, the structuring element of the closing, and (tutorial
      variant only) the footprint of the maximum filter on the distance map. */
  const BackgroundDiskSize: nat := 31
  const ClosingDiskSize: nat := 15
  const SeedDilationDiskSize: nat := 10

  function Square(x: int): int { x * x }

  /** The structuring element of size i. */
  function DiskElement(i: nat): (d: Grid<bool>)
    ensures IsGrid(d, i, i)
  {
    seq(i, r => seq(i, c => Square(r - i / 2) + Square(c - i / 2) <= Square(i / 2)))
  }

  lemma DiskElementAt(i: nat, r: int, c: int)
    requires 0 <= r < i && 0 <= c < i
    ensures DiskElement(i)[r][c] <==> Square(r - i / 2) + Square(c - i / 2) <= Square(i / 2)
  {
  }

  /** A non-empty disk contains its centre pixel. */
  lemma DiskContainsCentre(i: nat)
    requires i >= 1
    ensures i / 2 < i && DiskElement(i)[i / 2][i / 2]
  {
    DiskElementAt(i, i / 2, i / 2);
  }

  /** Swapping row and column maps the disk onto itself. */
  lemma DiskTransposeSymmetric(i: nat, r: int, c: int)
    requires 0 <= r < i && 0 <= c < i
    ensures DiskElement(i)[r][c] == DiskElement(i)[c][r]
  {
    DiskElementAt(i, r, c);
    DiskElementAt(i, c, r);
  }

  /** For an odd size the centre is the middle pixel, and flipping the rows
      (r to i-1-r) maps the disk onto itself. */
  lemma OddDiskMirrorSymmetric(i: nat, r: int, c: int)
    requires i % 2 == 1
    requires 0 <= r < i && 0 <= c < i
    ensures DiskElement(i)[r][c] == DiskElement(i)[i - 1 - r][c]
  {
    DiskElementAt(i, r, c);
    DiskElementAt(i, i - 1 - r, c);
    assert (i - 1 - r) - i / 2 == -(r - i / 2);
  }

  /** For an even size the centre sits one pixel past the middle, so the disk
      is clipped: the pixel (i-1, i/2+1) of the last row is in the disk while
      its row mirror (0, i/2+1) is not. */
  lemma EvenDiskClipped(i: nat)
    requires i % 2 == 0 && i >= 4
    ensures i / 2 + 1 < i
    ensures DiskElement(i)[i - 1][i / 2 + 1]
    ensures !DiskElement(i)[0][i / 2 + 1]
  {
    var h := i / 2;
    assert i == 2 * h && h >= 2;
    DiskElementAt(i, i - 1, h + 1);
    DiskElementAt(i, 0, h + 1);
    assert i - 1 - h == h - 1;
    SquareOfPredecessor(h);
    assert Square(h + 1 - h) == 1;
    assert Square(0 - h) == Square(h);
  }

  /** (h-1)² = h² - 2h + 1. */
  lemma SquareOfPredecessor(h: int)
    ensures Square(h - 1) == Square(h) - 2 * h + 1
  {
  }

  /** The size-10 disk of the tutorial's maximum filter is such a clipped disk. */
  lemma SeedDilationDiskClipped()
    ensures DiskElement(SeedDilationDiskSize)[9][6]
    ensures !DiskElement(SeedDilationDiskSize)[0][6]
  {
    EvenDiskClipped(SeedDilationDiskSize);
  }
}
