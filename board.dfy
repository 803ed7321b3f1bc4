/**
 * The board as both solvers see it: coordinates and their row-major linear
 * index, the snapshot grid of shown values, the grid of proven mines, and the
 * scans over them that the two solvers share (they differ only in the value
 * that marks a covered cell: 8 in the interval solver, -1 in the exact one).
 */
module Board {

  /** A cell position: column `x`, row `y`. */
  datatype Coordinate = Coordinate(x: int, y: int)

  /** Where the source stops on a failed assertion. */
  datatype Error =
    | RevealedCellChanged  // a cell revealed on the previous board shows another value now
    | Inconsistent         // a sentence would break 0 <= lower <= upper <= |positions|

  /** The coordinate of linear index `n` (`x = n % width`, `y = n / width`). */
  function NumToCoord(width: nat, n: nat): (c: Coordinate)
    requires width > 0
    ensures 0 <= c.x < width && 0 <= c.y
    ensures CoordToNum(width, c) == n
  {
    Coordinate(n % width, n / width)
  }

  /** The linear index of a coordinate, `x + y * width`. */
  function CoordToNum(width: nat, c: Coordinate): int
  {
    c.x + c.y * width
  }

  predicate InGrid(width: nat, height: nat, c: Coordinate)
  {
    0 <= c.x < width && 0 <= c.y < height
  }

  lemma MulMonotone(a: int, b: int, k: nat)
    requires a <= b
    ensures a * k <= b * k
  {
    assert b * k - a * k == (b - a) * k;
  }

  /** Every index below `width * height` names a cell of the grid. */
  lemma NumToCoordInGrid(width: nat, height: nat, n: nat)
    requires width > 0 && n < width * height
    ensures InGrid(width, height, NumToCoord(width, n))
  {
    var c := NumToCoord(width, n);
    if c.y >= height {
      MulMonotone(height, c.y, width);
      assert false;
    }
  }

  /** The index round trip in the other direction: a cell of the grid has an
      index below `width * height`, and that index maps back to the cell. */
  lemma CoordToNumInGrid(width: nat, height: nat, c: Coordinate)
    requires width > 0 && InGrid(width, height, c)
    ensures 0 <= CoordToNum(width, c) < width * height
    ensures NumToCoord(width, CoordToNum(width, c)) == c
  {
    var n := CoordToNum(width, c);
    MulMonotone(c.y, height - 1, width);
    assert (height - 1) * width + width == height * width;
    var q, r := n / width, n % width;
    assert n == q * width + r;
    if q > c.y {
      MulMonotone(c.y + 1, q, width);
      assert false;
    }
    if q < c.y {
      MulMonotone(q + 1, c.y, width);
      assert false;
    }
  }

  /** Distinct cells of the grid have distinct indices. */
  lemma CoordToNumInjective(width: nat, height: nat, c: Coordinate, d: Coordinate)
    requires width > 0 && InGrid(width, height, c) && InGrid(width, height, d)
    requires CoordToNum(width, c) == CoordToNum(width, d)
    ensures c == d
  {
    CoordToNumInGrid(width, height, c);
    CoordToNumInGrid(width, height, d);
  }

  /** A snapshot has `height` rows of `width` values each. */
  predicate Shaped(g: seq<seq<int>>, width: nat, height: nat)
  {
    |g| == height && forall r :: 0 <= r < height ==> |g[r]| == width
  }

  /** The value shown at linear index `n`. */
  function At(g: seq<seq<int>>, width: nat, height: nat, n: nat): int
    requires width > 0 && Shaped(g, width, height) && n < width * height
  {
    NumToCoordInGrid(width, height, n);
    var c := NumToCoord(width, n);
    g[c.y][c.x]
  }

  /** Whether the mines grid marks linear index `n`. */
  function MineAt(mines: array2<bool>, n: nat): bool
    reads mines
    requires mines.Length1 > 0 && n < mines.Length1 * mines.Length0
  {
    NumToCoordInGrid(mines.Length1, mines.Length0, n);
    var c := NumToCoord(mines.Length1, n);
    mines[c.y, c.x]
  }

  /** The linear indices the mines grid marks. */
  function MineSet(mines: array2<bool>): (r: set<nat>)
    reads mines
    requires mines.Length1 > 0
    ensures forall n :: n in r ==> n < mines.Length1 * mines.Length0 && MineAt(mines, n)
  {
    set n: nat | n < mines.Length1 * mines.Length0 && MineAt(mines, n)
  }

  /** Covered cells that are not proven mines: the candidates for a guess. */
  function Unresolved(g: seq<seq<int>>, mines: array2<bool>, covered: int): (r: set<nat>)
    reads mines
    requires mines.Length1 > 0 && Shaped(g, mines.Length1, mines.Length0)
    ensures forall n :: n in r ==> n < mines.Length1 * mines.Length0
  {
    set n: nat | n < mines.Length1 * mines.Length0
      && At(g, mines.Length1, mines.Length0, n) == covered && !MineAt(mines, n)
  }

  /** Membership in `Unresolved`, read off at a cell of the grid. */
  lemma UnresolvedAt(g: seq<seq<int>>, mines: array2<bool>, covered: int, i: int, j: int)
    requires mines.Length1 > 0 && Shaped(g, mines.Length1, mines.Length0)
    requires 0 <= i < mines.Length0 && 0 <= j < mines.Length1
    ensures 0 <= CoordToNum(mines.Length1, Coordinate(j, i)) < mines.Length1 * mines.Length0
    ensures CoordToNum(mines.Length1, Coordinate(j, i)) in Unresolved(g, mines, covered)
        <==> g[i][j] == covered && !mines[i, j]
  {
    CoordToNumInGrid(mines.Length1, mines.Length0, Coordinate(j, i));
  }

  /** The members of `s` below `k`. */
  function Below(s: set<nat>, k: int): set<nat>
  {
    set q | q in s && q < k
  }

  lemma {:induction false} BelowStep(s: set<nat>, k: nat)
    ensures |Below(s, k + 1)| == |Below(s, k)| + (if k in s then 1 else 0)
  {
    if k in s {
      assert Below(s, k + 1) == Below(s, k) + {k};
    } else {
      assert Below(s, k + 1) == Below(s, k);
    }
  }

  lemma BelowEverything(s: set<nat>, k: int)
    requires forall q :: q in s ==> q < k
    ensures Below(s, k) == s
  {
  }

  // ---------------------------------------------------------------- counting


  lemma SubsetSameSize(a: set<nat>, b: set<nat>)
    requires a <= b && |a| == |b|
    ensures a == b
  {
    assert |b - a| == |b| - |a|;
  }

  /** Mines in a disjoint union add up. */
  lemma CountSplit(a: set<nat>, x: set<nat>, y: set<nat>)
    requires x !! y
    ensures |a * (x + y)| == |a * x| + |a * y|
  {
    assert a * (x + y) == a * x + a * y;
    assert (a * x) !! (a * y);
  }

  lemma CountAtMostSize(a: set<nat>, x: set<nat>)
    ensures |a * x| <= |x|
  {
    assert x == (x - a) + a * x;
    assert (x - a) !! (a * x);
  }

  // -------------------------------------------------------------- the grids

  /** Marks every cell of `cells` in the mines grid and nothing else. */
  method MarkMines(mines: array2<bool>, cells: set<nat>)
    requires mines.Length1 > 0 && forall n :: n in cells ==> n < mines.Length1 * mines.Length0
    modifies mines
    ensures forall y, x :: 0 <= y < mines.Length0 && 0 <= x < mines.Length1 && old(mines[y, x]) ==> mines[y, x]
    ensures MineSet(mines) == old(MineSet(mines)) + cells
  {
    var width, height := mines.Length1, mines.Length0;
    var todo := cells;
    while todo != {}
      invariant todo <= cells
      invariant forall y, x :: 0 <= y < height && 0 <= x < width && old(mines[y, x]) ==> mines[y, x]
      invariant MineSet(mines) == old(MineSet(mines)) + (cells - todo)
      decreases todo
    {
      var n :| n in todo;
      var c := NumToCoord(width, n);
      NumToCoordInGrid(width, height, n);
      ghost var before := MineSet(mines);
      mines[c.y, c.x] := true;
      forall q: nat | q < width * height
        ensures MineAt(mines, q) <==> q in before || q == n
      {
        NumToCoordInGrid(width, height, q);
      }
      assert MineSet(mines) == before + {n};
      todo := todo - {n};
    }
  }

  /** Whether every covered cell is a proven mine (the game is over). */
  method IsFinished(g: seq<seq<int>>, mines: array2<bool>, covered: int) returns (finished: bool)
    requires mines.Length1 > 0 && Shaped(g, mines.Length1, mines.Length0)
    ensures finished <==> Unresolved(g, mines, covered) == {}
  {
    var width, height := mines.Length1, mines.Length0;
    ghost var open := Unresolved(g, mines, covered);
    var i := 0;
    while i < height
      invariant 0 <= i <= height
      invariant forall n :: n in open ==> NumToCoord(width, n).y >= i
    {
      var j := 0;
      while j < width
        invariant 0 <= j <= width
        invariant forall n :: n in open ==>
          NumToCoord(width, n).y > i || (NumToCoord(width, n).y == i && NumToCoord(width, n).x >= j)
      {
        UnresolvedAt(g, mines, covered, i, j);
        if g[i][j] == covered && !mines[i, j] {
          return false;
        }
        forall n | n in open
          ensures NumToCoord(width, n).y > i || (NumToCoord(width, n).y == i && NumToCoord(width, n).x > j)
        {
          NumToCoordInGrid(width, height, n);
        }
        j := j + 1;
      }
      i := i + 1;
    }
    forall n | n in open ensures NumToCoord(width, n).y < height {
      NumToCoordInGrid(width, height, n);
    }
    return true;
  }

  /**
   * The cell that comes `seed % |Unresolved|`-th, in row-major order, among the
   * covered cells that are not proven mines. The seed stands for the random
   * number the source draws; every rank below the count is one possible draw.
   */
  method PickUnresolved(g: seq<seq<int>>, mines: array2<bool>, covered: int, seed: nat)
    returns (c: Coordinate)
    requires mines.Length1 > 0 && Shaped(g, mines.Length1, mines.Length0)
    requires Unresolved(g, mines, covered) != {}
    ensures InGrid(mines.Length1, mines.Length0, c)
    ensures CoordToNum(mines.Length1, c) in Unresolved(g, mines, covered)
    ensures |Below(Unresolved(g, mines, covered), CoordToNum(mines.Length1, c))|
         == seed % |Unresolved(g, mines, covered)|
  {
    var width, height := mines.Length1, mines.Length0;
    ghost var open := Unresolved(g, mines, covered);
    var count := 0;
    var i := 0;
    while i < height
      invariant 0 <= i <= height
      invariant count == |Below(open, i * width)|
    {
      var j := 0;
      while j < width
        invariant 0 <= j <= width
        invariant count == |Below(open, j + i * width)|
      {
        UnresolvedAt(g, mines, covered, i, j);
        BelowStep(open, j + i * width);
        if g[i][j] == covered && !mines[i, j] {
          count := count + 1;
        }
        j := j + 1;
      }
      assert width + i * width == (i + 1) * width;
      i := i + 1;
    }
    BelowEverything(open, height * width);
    var index := seed % count;
    count := 0;
    i := 0;
    while i < height
      invariant 0 <= i <= height
      invariant count == |Below(open, i * width)| && count <= index
    {
      var j := 0;
      while j < width
        invariant 0 <= j <= width
        invariant count == |Below(open, j + i * width)| && count <= index
      {
        UnresolvedAt(g, mines, covered, i, j);
        BelowStep(open, j + i * width);
        if g[i][j] == covered && !mines[i, j] {
          if count == index {
            return Coordinate(j, i);
          }
          count := count + 1;
        }
        j := j + 1;
      }
      assert width + i * width == (i + 1) * width;
      i := i + 1;
    }
    assert false;
    c := Coordinate(0, 0);
  }

  /** The coordinates of a set of cell indices, each once, in no fixed order. */
  method CoordsOf(width: nat, height: nat, cells: set<nat>) returns (r: seq<Coordinate>)
    requires width > 0 && forall n :: n in cells ==> n < width * height
    ensures |r| == |cells|
    ensures forall n :: n in cells ==> NumToCoord(width, n) in r
    ensures forall k :: 0 <= k < |r| ==> InGrid(width, height, r[k]) && CoordToNum(width, r[k]) in cells
    ensures forall a, b :: 0 <= a < b < |r| ==> r[a] != r[b]
  {
    r := [];
    var todo := cells;
    ghost var done: set<nat> := {};
    while todo != {}
      invariant todo <= cells && forall n :: n in done <==> n in cells && n !in todo
      invariant Listed(width, height, done, r)
      decreases todo
    {
      var n :| n in todo;
      NumToCoordInGrid(width, height, n);
      ListedStep(width, height, done, r, n);
      r := r + [NumToCoord(width, n)];
      todo := todo - {n};
      done := done + {n};
    }
    assert done == cells;
  }

  /** `r` lists, without repetition, the coordinates of the cells of `done`. */
  ghost predicate Listed(width: nat, height: nat, done: set<nat>, r: seq<Coordinate>)
    requires width > 0
  {
    && |r| == |done|
    && (forall m :: m in done ==> NumToCoord(width, m) in r)
    && (forall k :: 0 <= k < |r| ==> InGrid(width, height, r[k]) && CoordToNum(width, r[k]) in done)
    && (forall a, b :: 0 <= a < b < |r| ==> r[a] != r[b])
  }

  /** Listing one more cell keeps `Listed`. */
  lemma ListedStep(width: nat, height: nat, done: set<nat>, r: seq<Coordinate>, n: nat)
    requires width > 0 && Listed(width, height, done, r) && n !in done
    requires InGrid(width, height, NumToCoord(width, n))
    ensures Listed(width, height, done + {n}, r + [NumToCoord(width, n)])
  {
    var c := NumToCoord(width, n);
    forall k | 0 <= k < |r| ensures r[k] != c {
      assert CoordToNum(width, r[k]) in done;
    }
  }

  /** Row `i'`, column `j'` comes before row `i`, column `j` in row-major order. */
  predicate RowMajorBefore(i': int, j': int, i: int, j: int)
  {
    i' < i || (i' == i && j' < j)
  }

  /** Linear index `n` lies in the 3x3 block centred on row `i`, column `j`. */
  predicate Around(width: nat, n: nat, i: int, j: int)
    requires width > 0
  {
    var c := NumToCoord(width, n);
    i - 1 <= c.y <= i + 1 && j - 1 <= c.x <= j + 1
  }

  /** `n` lies in the block around (`i`, `j`) and a row-major scan of that block
      reaches it before row `ii`, column `jj`. */
  predicate ScannedBefore(width: nat, n: nat, i: int, j: int, ii: int, jj: int)
    requires width > 0
  {
    var c := NumToCoord(width, n);
    Around(width, n, i, j) && (c.y < ii || (c.y == ii && c.x < jj))
  }

  /** The cells of the board around row `i`, column `j`, the centre excluded. */
  function Neighbours(width: nat, height: nat, i: int, j: int): set<nat>
    requires width > 0
  {
    set n: nat | n < width * height && Around(width, n, i, j) && NumToCoord(width, n) != Coordinate(j, i)
  }

  /** The neighbours a row-major scan of the block reaches before row `ii`,
      column `jj`. */
  function NeighboursBefore(width: nat, height: nat, i: int, j: int, ii: int, jj: int): set<nat>
    requires width > 0
  {
    set n | n in Neighbours(width, height, i, j) && ScannedBefore(width, n, i, j, ii, jj)
  }

  /** Row `ii`, column `jj` is on the board and is not the centre (`i`, `j`). */
  predicate IsNeighbour(width: nat, height: nat, i: int, j: int, ii: int, jj: int)
  {
    !(ii == i && jj == j) && 0 <= ii < height && 0 <= jj < width
  }

  /** Scanning one more cell of the block adds it exactly when it is a neighbour. */
  lemma NeighbourStep(width: nat, height: nat, i: int, j: int, ii: int, jj: int)
    requires width > 0 && i - 1 <= ii <= i + 1 && j - 1 <= jj <= j + 1
    ensures IsNeighbour(width, height, i, j, ii, jj) ==>
      CoordToNum(width, Coordinate(jj, ii)) !in NeighboursBefore(width, height, i, j, ii, jj) &&
      NeighboursBefore(width, height, i, j, ii, jj + 1) ==
        NeighboursBefore(width, height, i, j, ii, jj) + {CoordToNum(width, Coordinate(jj, ii)) as nat}
    ensures !IsNeighbour(width, height, i, j, ii, jj) ==>
      NeighboursBefore(width, height, i, j, ii, jj + 1) == NeighboursBefore(width, height, i, j, ii, jj)
  {
    var c := Coordinate(jj, ii);
    if InGrid(width, height, c) {
      CoordToNumInGrid(width, height, c);
    }
    forall n | n in NeighboursBefore(width, height, i, j, ii, jj + 1) && n !in NeighboursBefore(width, height, i, j, ii, jj)
      ensures IsNeighbour(width, height, i, j, ii, jj) && n == CoordToNum(width, c)
    {
      NumToCoordInGrid(width, height, n);
    }
  }

  /** Scanning past the end of a row of the block is starting the next row. */
  lemma NeighbourRow(width: nat, height: nat, i: int, j: int, ii: int)
    requires width > 0
    ensures NeighboursBefore(width, height, i, j, ii, j + 2) == NeighboursBefore(width, height, i, j, ii + 1, j - 1)
  {
  }

  /** A scan of the whole block sees every neighbour. */
  lemma NeighboursAll(width: nat, height: nat, i: int, j: int)
    requires width > 0
    ensures NeighboursBefore(width, height, i, j, i - 1, j - 1) == {}
    ensures NeighboursBefore(width, height, i, j, i + 2, j - 1) == Neighbours(width, height, i, j)
  {
  }

  /** A block scan reaching one more cell `num`: how the cells left (neither
      in `marks` nor in `known`) and the number of marked cells seen change. */
  lemma AddNeighbour(seen: set<nat>, marks: set<nat>, known: set<nat>, num: nat)
    requires num !in seen
    ensures num in marks ==> |(seen + {num}) * marks| == |seen * marks| + 1
    ensures num !in marks ==> |(seen + {num}) * marks| == |seen * marks|
    ensures (num in marks || num in known) ==> (seen + {num}) - marks - known == seen - marks - known
    ensures !(num in marks || num in known) ==> (seen + {num}) - marks - known == (seen - marks - known) + {num}
  {
    if num in marks {
      assert (seen + {num}) * marks == seen * marks + {num};
    } else {
      assert (seen + {num}) * marks == seen * marks;
    }
  }

  /** A block scan reaching one more cell `p`: how the unmarked cells seen and
      the number of marked cells seen change. */
  lemma AddScanned(seen: set<nat>, marks: set<nat>, p: nat)
    requires p !in seen
    ensures p in marks ==> |(seen + {p}) * marks| == |seen * marks| + 1 && (seen + {p}) - marks == seen - marks
    ensures p !in marks ==> |(seen + {p}) * marks| == |seen * marks| && (seen + {p}) - marks == (seen - marks) + {p}
  {
    if p in marks {
      assert (seen + {p}) * marks == seen * marks + {p};
    } else {
      assert (seen + {p}) * marks == seen * marks;
    }
  }
}
