/**
 * The interval-bound solver: a knowledge base of interval sentences over the
 * covered cells, a grid of proven mines that is never cleared, and the set of
 * cells proven safe in the current update cycle. Each `Update` takes the new
 * board, rebuilds the knowledge base against it, adds a sentence for every
 * newly revealed cell, forward-chains over all pairs of sentences until nothing
 * new appears (or the fuel that stands for the time limit runs out), and
 * proposes the cells to open.
 *
 * A board is a grid of rows; `8` marks a covered cell, any other value is the
 * number a revealed cell shows. A revealed cell showing 8 is therefore
 * indistinguishable from a covered one.
 */
module IntervalSolver {
  import opened Wrappers
  import opened Board
  import opened IntervalSentence
  import opened IntervalKnowledge

  /** The value that marks a covered cell on this solver's boards. */
  const Covered := 8

  /** The row-major rank of `n` among the members of `s`. */
  ghost predicate RankedAt(s: set<nat>, n: int, seed: nat)
    requires s != {}
  {
    |Below(s, n)| == seed % |s|
  }

  class Solver {
    var cells: seq<seq<int>>
    const width: nat
    const height: nat
    var knowledge: seq<Sentence>
    const mines: array2<bool>
    var safes: set<nat>

    /** The dimensions agree, every sentence is well formed and over covered
        cells, and every proven-safe cell is covered. */
    ghost predicate Valid()
      reads this, mines
    {
      && width > 0 && height > 0
      && mines.Length0 == height && mines.Length1 == width
      && Shaped(cells, width, height)
      && safes <= FreeCells()
      && forall s :: s in knowledge ==> WellFormed(s) && s.positions <= FreeCells()
    }

    constructor (width: nat, height: nat)
      requires width > 0 && height > 0
      ensures Valid() && fresh(mines)
      ensures this.width == width && this.height == height
      ensures forall i, j :: 0 <= i < height && 0 <= j < width ==> cells[i][j] == Covered && !mines[i, j]
      ensures knowledge == [] && safes == {}
    {
      this.width := width;
      this.height := height;
      cells := seq(height, _ => seq(width, _ => Covered));
      mines := new bool[height, width]((_, _) => false);
      knowledge := [];
      safes := {};
      new;
      assert FreeCells() <= FreeCells();
    }

    /** Whether row `i`, column `j` is on the board and covered. */
    function IsCellFree(i: int, j: int): (r: bool)
      reads this`cells
      requires Shaped(cells, width, height)
      ensures r ==> 0 <= i < height && 0 <= j < width
      ensures 0 <= i < height && 0 <= j < width ==> (r <==> cells[i][j] == Covered)
    {
      if i < 0 || i >= height || j < 0 || j >= width then false else cells[i][j] == Covered
    }

    /** Whether column `x`, row `y` is a proven mine (note the argument order). */
    function IsSureMine(x: int, y: int): bool
      reads this, mines
      requires mines.Length0 == height && mines.Length1 == width
      requires 0 <= y < height && 0 <= x < width
    {
      mines[y, x]
    }

    /** The linear indices of the covered cells. */
    function FreeCells(): (r: set<nat>)
      reads this`cells
      requires width > 0 && Shaped(cells, width, height)
      ensures forall p :: p in r ==> p < width * height
    {
      set p: nat | p < width * height && IsCellFree(NumToCoord(width, p).y, NumToCoord(width, p).x)
    }

    /** What `Reduce` consults. */
    function Known(): Facts
      reads this, mines
      requires Valid()
    {
      Facts(FreeCells(), MineSet(mines), safes)
    }

    /** A cell of the grid is in `FreeCells` exactly when it is covered. */
    lemma FreeAt(i: int, j: int)
      requires width > 0 && Shaped(cells, width, height)
      requires 0 <= i < height && 0 <= j < width
      ensures 0 <= CoordToNum(width, Coordinate(j, i)) < width * height
      ensures CoordToNum(width, Coordinate(j, i)) in FreeCells() <==> cells[i][j] == Covered
    {
      CoordToNumInGrid(width, height, Coordinate(j, i));
    }

    /** A cell of the grid is in `MineSet` exactly when it is marked. */
    lemma MineAtCell(i: int, j: int)
      requires Valid() && 0 <= i < height && 0 <= j < width
      ensures CoordToNum(width, Coordinate(j, i)) in MineSet(mines) <==> IsSureMine(j, i)
    {
      CoordToNumInGrid(width, height, Coordinate(j, i));
    }

    // ------------------------------------------------------------- sentences

    /** The covered cells in the 3x3 block around row `i`, column `j`. */
    function FreeAround(i: int, j: int): set<nat>
      reads this`cells
      requires width > 0 && Shaped(cells, width, height)
    {
      set p | p in FreeCells() && Around(width, p, i, j)
    }

    /** The sentence a revealed cell gives when `marked` are the proven
        mines: its number, less the marked mines around it, over the covered
        unmarked cells around it. */
    function SentenceWith(marked: set<nat>, i: int, j: int): Result<Sentence, Error>
      reads this`cells
      requires width > 0 && Shaped(cells, width, height) && 0 <= i < height && 0 <= j < width
    {
      var around := FreeAround(i, j);
      match OfCount(around - marked, cells[i][j] - |around * marked|)
      case Some(s) => Success(s)
      case None => Failure(Inconsistent)
    }

    /** The sentence a revealed cell gives against the mines grid. */
    function CellSentence(i: int, j: int): Result<Sentence, Error>
      reads this, mines
      requires Valid() && 0 <= i < height && 0 <= j < width
    {
      SentenceWith(MineSet(mines), i, j)
    }

    /** The sentence a revealed cell gives against `marked` holds for every
        assignment of covered cells that contains the covered marked cells and
        puts as many mines around the cell as the cell shows; so for such a
        board the sentence exists. */
    lemma SentenceWithSound(a: set<nat>, marked: set<nat>, i: int, j: int)
      requires width > 0 && Shaped(cells, width, height) && 0 <= i < height && 0 <= j < width
      requires a <= FreeCells() && FreeCells() * marked <= a
      requires |a * (set p: nat | p < width * height && Around(width, p, i, j))| == cells[i][j]
      ensures SentenceWith(marked, i, j).Success?
      ensures Holds(a, SentenceWith(marked, i, j).value)
    {
      var block := set p: nat | p < width * height && Around(width, p, i, j);
      var around := FreeAround(i, j);
      var known := around * marked;
      assert a * block == a * around;
      assert around == (around - marked) + known;
      CountSplit(a, around - marked, known);
      assert a * known == known;
      CountAtMostSize(a, around - marked);
    }

    /** The same against the mines grid. */
    lemma CellSentenceSound(a: set<nat>, i: int, j: int)
      requires Valid() && 0 <= i < height && 0 <= j < width
      requires Consistent(a, Known())
      requires |a * (set p: nat | p < width * height && Around(width, p, i, j))| == cells[i][j]
      ensures CellSentence(i, j).Success?
      ensures Holds(a, CellSentence(i, j).value)
    {
      SentenceWithSound(a, MineSet(mines), i, j);
    }

    /** The covered cells of the block around (`i`, `j`) that a row-major scan
        of the block reaches before row `ii`, column `jj`. */
    ghost function Scanned(i: int, j: int, ii: int, jj: int): set<nat>
      reads this`cells
      requires width > 0 && Shaped(cells, width, height)
    {
      set p | p in FreeCells() && ScannedBefore(width, p, i, j, ii, jj)
    }

    /** Scanning one more cell of the block adds that cell exactly when it is
        covered; it was not scanned before. */
    lemma ScanCell(i: int, j: int, ii: int, jj: int)
      requires width > 0 && Shaped(cells, width, height)
      requires i - 1 <= ii <= i + 1 && j - 1 <= jj <= j + 1
      ensures IsCellFree(ii, jj) ==> CoordToNum(width, Coordinate(jj, ii)) !in Scanned(i, j, ii, jj)
      ensures Scanned(i, j, ii, jj + 1) ==
        Scanned(i, j, ii, jj) + (if IsCellFree(ii, jj) then {CoordToNum(width, Coordinate(jj, ii)) as nat} else {})
    {
      var c := Coordinate(jj, ii);
      if IsCellFree(ii, jj) {
        FreeAt(ii, jj);
        CoordToNumInGrid(width, height, c);
      }
      forall p | p in Scanned(i, j, ii, jj + 1) && p !in Scanned(i, j, ii, jj)
        ensures IsCellFree(ii, jj) && p == CoordToNum(width, c)
      {
        var d := NumToCoord(width, p);
        assert d == c;
        assert p < width * height;
        NumToCoordInGrid(width, height, p);
      }
    }

    /** Scanning past the end of a row of the block is starting the next row. */
    lemma ScanRow(i: int, j: int, ii: int)
      requires width > 0 && Shaped(cells, width, height)
      ensures Scanned(i, j, ii, j + 2) == Scanned(i, j, ii + 1, j - 1)
    {
    }

    /** A scan of the whole block sees the covered cells around the centre,
        and the cell's sentence is read off what it found. */
    lemma ScanComplete(i: int, j: int)
      requires Valid() && 0 <= i < height && 0 <= j < width
      ensures Scanned(i, j, i + 2, j - 1) == FreeAround(i, j)
      ensures var positions := Scanned(i, j, i + 2, j - 1) - MineSet(mines);
        var count := cells[i][j] - |Scanned(i, j, i + 2, j - 1) * MineSet(mines)|;
        CellSentence(i, j) == if count < 0 || count > |positions| then Failure(Inconsistent)
          else Success(Sentence(positions, count, count))
    {
    }

    /** One cell of the block scan in `GetCellSentence`: a covered cell that
        is marked lowers the count, any other covered cell joins the positions. */
    method ScanBlockCell(i: int, j: int, ii: int, jj: int, count0: int, positions0: set<nat>, ghost seen0: set<nat>)
      returns (count: int, positions: set<nat>, ghost seen: set<nat>)
      requires Valid() && 0 <= i < height && 0 <= j < width && i - 1 <= ii <= i + 1 && j - 1 <= jj <= j + 1
      requires seen0 == Scanned(i, j, ii, jj) && positions0 == seen0 - MineSet(mines)
      requires count0 == cells[i][j] - |seen0 * MineSet(mines)|
      ensures seen == Scanned(i, j, ii, jj + 1) && positions == seen - MineSet(mines)
      ensures count == cells[i][j] - |seen * MineSet(mines)|
    {
      ScanCell(i, j, ii, jj);
      count, positions, seen := count0, positions0, seen0;
      if IsCellFree(ii, jj) {
        FreeAt(ii, jj);
        var p: nat := CoordToNum(width, Coordinate(jj, ii));
        MineAtCell(ii, jj);
        AddScanned(seen, MineSet(mines), p);
        if IsSureMine(jj, ii) {
          count := count - 1;
        } else {
          positions := positions + {p};
        }
        seen := seen + {p};
      }
    }

    /** One row of the block scan in `GetCellSentence`. */
    method ScanBlockRow(i: int, j: int, ii: int, count0: int, positions0: set<nat>, ghost seen0: set<nat>)
      returns (count: int, positions: set<nat>, ghost seen: set<nat>)
      requires Valid() && 0 <= i < height && 0 <= j < width && i - 1 <= ii <= i + 1
      requires seen0 == Scanned(i, j, ii, j - 1) && positions0 == seen0 - MineSet(mines)
      requires count0 == cells[i][j] - |seen0 * MineSet(mines)|
      ensures seen == Scanned(i, j, ii + 1, j - 1) && positions == seen - MineSet(mines)
      ensures count == cells[i][j] - |seen * MineSet(mines)|
    {
      count, positions, seen := count0, positions0, seen0;
      var jj := j - 1;
      while jj <= j + 1
        invariant j - 1 <= jj <= j + 2
        invariant seen == Scanned(i, j, ii, jj) && positions == seen - MineSet(mines)
        invariant count == cells[i][j] - |seen * MineSet(mines)|
      {
        count, positions, seen := ScanBlockCell(i, j, ii, jj, count, positions, seen);
        jj := jj + 1;
      }
      ScanRow(i, j, ii);
    }

    /** The sentence on the cells around row `i`, column `j`. */
    method GetCellSentence(i: int, j: int) returns (r: Result<Sentence, Error>)
      requires Valid() && 0 <= i < height && 0 <= j < width
      ensures r == CellSentence(i, j)
    {
      var count := cells[i][j];
      var positions: set<nat> := {};
      ghost var seen: set<nat> := {};
      var ii := i - 1;
      assert Scanned(i, j, ii, j - 1) == {};
      while ii <= i + 1
        invariant i - 1 <= ii <= i + 2
        invariant seen == Scanned(i, j, ii, j - 1) && positions == seen - MineSet(mines)
        invariant count == cells[i][j] - |seen * MineSet(mines)|
      {
        count, positions, seen := ScanBlockRow(i, j, ii, count, positions, seen);
        ii := ii + 1;
      }
      ScanComplete(i, j);
      if count < 0 || count > |positions| {
        return Failure(Inconsistent);
      }
      return Success(Sentence(positions, count, count));
    }

    /** Cell (i, j) was covered on `oldCells` and is revealed now. */
    predicate NewlyRevealed(oldCells: seq<seq<int>>, i: int, j: int)
      reads this`cells
      requires Shaped(cells, width, height) && Shaped(oldCells, width, height)
      requires 0 <= i < height && 0 <= j < width
    {
      oldCells[i][j] == Covered && cells[i][j] != Covered
    }

    /** Every cell revealed on `oldCells` that comes before row `i`, column
        `j` in row-major order shows the same value now. */
    ghost predicate UnchangedBefore(oldCells: seq<seq<int>>, i: int, j: int)
      reads this`cells
      requires Shaped(cells, width, height) && Shaped(oldCells, width, height)
    {
      forall i', j' :: 0 <= i' < height && 0 <= j' < width && RowMajorBefore(i', j', i, j) ==>
        (oldCells[i'][j'] != Covered ==> oldCells[i'][j'] == cells[i'][j'])
    }

    /** Every cell revealed on `oldCells` shows the same value now. */
    ghost predicate RevealedUnchanged(oldCells: seq<seq<int>>)
      reads this`cells
      requires Shaped(cells, width, height) && Shaped(oldCells, width, height)
    {
      UnchangedBefore(oldCells, height, 0)
    }

    /** Every cell newly revealed before row `i`, column `j` has a sentence. */
    ghost predicate SentencesExistBefore(oldCells: seq<seq<int>>, i: int, j: int)
      reads this, mines
      requires Valid() && Shaped(oldCells, width, height)
    {
      forall i', j' :: 0 <= i' < height && 0 <= j' < width && RowMajorBefore(i', j', i, j) ==>
        (NewlyRevealed(oldCells, i', j') ==> CellSentence(i', j').Success?)
    }

    /** The informative sentence of every cell newly revealed before row `i`,
        column `j` is in `out`. */
    ghost predicate CollectedBefore(oldCells: seq<seq<int>>, out: seq<Sentence>, i: int, j: int)
      reads this, mines
      requires Valid() && Shaped(oldCells, width, height)
    {
      forall i', j' :: 0 <= i' < height && 0 <= j' < width && RowMajorBefore(i', j', i, j) ==>
        ((NewlyRevealed(oldCells, i', j') && CellSentence(i', j').Success? &&
          !IsTrivial(CellSentence(i', j').value)) ==> CellSentence(i', j').value in out)
    }

    /** The scan invariants extend over one more cell... */
    lemma ScanStep(oldCells: seq<seq<int>>, out: seq<Sentence>, out': seq<Sentence>, i: int, j: int)
      requires Valid() && Shaped(oldCells, width, height) && 0 <= i < height && 0 <= j < width
      requires forall x :: x in out ==> x in out'
      requires UnchangedBefore(oldCells, i, j) && SentencesExistBefore(oldCells, i, j)
      requires CollectedBefore(oldCells, out, i, j)
      requires oldCells[i][j] != Covered ==> oldCells[i][j] == cells[i][j]
      requires NewlyRevealed(oldCells, i, j) ==> CellSentence(i, j).Success?
      requires NewlyRevealed(oldCells, i, j) && !IsTrivial(CellSentence(i, j).value) ==>
        CellSentence(i, j).value in out'
      ensures UnchangedBefore(oldCells, i, j + 1) && SentencesExistBefore(oldCells, i, j + 1)
      ensures CollectedBefore(oldCells, out', i, j + 1)
    {
    }

    /** ... and from the end of one row to the start of the next. */
    lemma ScanNextRow(oldCells: seq<seq<int>>, out: seq<Sentence>, i: int)
      requires Valid() && Shaped(oldCells, width, height)
      requires UnchangedBefore(oldCells, i, width) && SentencesExistBefore(oldCells, i, width)
      requires CollectedBefore(oldCells, out, i, width)
      ensures UnchangedBefore(oldCells, i + 1, 0) && SentencesExistBefore(oldCells, i + 1, 0)
      ensures CollectedBefore(oldCells, out, i + 1, 0)
    {
    }

    /** `s` is an informative sentence of some newly revealed cell. */
    ghost predicate FromNewCell(oldCells: seq<seq<int>>, s: Sentence)
      reads this, mines
      requires Valid() && Shaped(oldCells, width, height)
    {
      !IsTrivial(s) &&
      exists i, j :: 0 <= i < height && 0 <= j < width && NewlyRevealed(oldCells, i, j) &&
        CellSentence(i, j) == Success(s)
    }

    /** Every sentence of `out` is an informative sentence of a newly revealed cell. */
    ghost predicate AllFromNewCells(oldCells: seq<seq<int>>, out: seq<Sentence>)
      reads this, mines
      requires Valid() && Shaped(oldCells, width, height)
    {
      forall s :: s in out ==> FromNewCell(oldCells, s)
    }

    lemma NewCellAdded(oldCells: seq<seq<int>>, out: seq<Sentence>, i: int, j: int)
      requires Valid() && Shaped(oldCells, width, height) && 0 <= i < height && 0 <= j < width
      requires AllFromNewCells(oldCells, out)
      requires NewlyRevealed(oldCells, i, j) && CellSentence(i, j).Success?
      requires !IsTrivial(CellSentence(i, j).value)
      ensures AllFromNewCells(oldCells, out + [CellSentence(i, j).value])
    {
      assert FromNewCell(oldCells, CellSentence(i, j).value);
    }

    /** What cell (i, j) adds to the new sentences when `marked` are the
        proven mines: a failure if it was revealed and changed, its sentence
        if it is newly revealed and the sentence is informative. */
    ghost function CellNews(oldCells: seq<seq<int>>, marked: set<nat>, i: int, j: int): Result<seq<Sentence>, Error>
      reads this`cells
      requires width > 0 && Shaped(cells, width, height) && Shaped(oldCells, width, height)
      requires 0 <= i < height && 0 <= j < width
    {
      if oldCells[i][j] != Covered then
        if oldCells[i][j] != cells[i][j] then Failure(RevealedCellChanged) else Success([])
      else if cells[i][j] != Covered then
        match SentenceWith(marked, i, j)
        case Failure(e) => Failure(e)
        case Success(s) => Success(if IsTrivial(s) then [] else [s])
      else Success([])
    }

    /** What the cells from row `i`, column `j` on add, in row-major order;
        the first failure wins. */
    ghost function NewsFrom(oldCells: seq<seq<int>>, marked: set<nat>, i: nat, j: nat): Result<seq<Sentence>, Error>
      reads this`cells
      requires width > 0 && Shaped(cells, width, height) && Shaped(oldCells, width, height)
      decreases height - i, width - j
    {
      if i >= height then Success([])
      else if j >= width then NewsFrom(oldCells, marked, i + 1, 0)
      else Join(CellNews(oldCells, marked, i, j), NewsFrom(oldCells, marked, i, j + 1))
    }

    /** Moving the row-major scan past cell (i, j): a failure there is the
        outcome, otherwise what the cell adds joins `out`. */
    lemma NewsStep(oldCells: seq<seq<int>>, marked: set<nat>, out: seq<Sentence>, i: nat, j: nat)
      requires width > 0 && Shaped(cells, width, height) && Shaped(oldCells, width, height)
      requires i < height && j < width
      requires NewsFrom(oldCells, marked, 0, 0) == Prepend(out, NewsFrom(oldCells, marked, i, j))
      ensures CellNews(oldCells, marked, i, j).Failure? ==>
        NewsFrom(oldCells, marked, 0, 0) == CellNews(oldCells, marked, i, j)
      ensures CellNews(oldCells, marked, i, j).Success? ==>
        NewsFrom(oldCells, marked, 0, 0) ==
          Prepend(out + CellNews(oldCells, marked, i, j).value, NewsFrom(oldCells, marked, i, j + 1))
    {
      PrependJoin(out, CellNews(oldCells, marked, i, j), NewsFrom(oldCells, marked, i, j + 1));
    }

    /** Every revealed cell of the board shows how many cells of `a` are
        around it. */
    ghost predicate CountsTrue(a: set<nat>)
      reads this`cells
      requires Shaped(cells, width, height)
    {
      forall i, j :: 0 <= i < height && 0 <= j < width ==> CountTrueAt(a, i, j)
    }

    /** The cell at row `i`, column `j`, when revealed, shows how many cells
        of `a` are around it. */
    ghost predicate CountTrueAt(a: set<nat>, i: int, j: int)
      reads this`cells
      requires Shaped(cells, width, height) && 0 <= i < height && 0 <= j < width
    {
      cells[i][j] != Covered ==> |a * (set p: nat | p < width * height && Around(width, p, i, j))| == cells[i][j]
    }

    /** Every cell revealed on `oldCells` shows the same value on the board. */
    ghost predicate KeptRevealed(oldCells: seq<seq<int>>)
      reads this`cells
      requires Shaped(cells, width, height) && Shaped(oldCells, width, height)
    {
      forall i, j :: 0 <= i < height && 0 <= j < width && oldCells[i][j] != Covered ==>
        cells[i][j] == oldCells[i][j]
    }

    /** On a board whose numbers are true of `a`, which keeps what `oldCells`
        showed, the scan never fails and every sentence it gives holds. */
    lemma {:induction false} NewsFromSound(a: set<nat>, oldCells: seq<seq<int>>, marked: set<nat>, i: nat, j: nat)
      requires width > 0 && Shaped(cells, width, height) && Shaped(oldCells, width, height)
      requires a <= FreeCells() && FreeCells() * marked <= a
      requires CountsTrue(a) && KeptRevealed(oldCells)
      ensures NewsFrom(oldCells, marked, i, j).Success?
      ensures AllHold(a, NewsFrom(oldCells, marked, i, j).value)
      decreases height - i, width - j
    {
      if i >= height {
      } else if j >= width {
        NewsFromSound(a, oldCells, marked, i + 1, 0);
        assert NewsFrom(oldCells, marked, i, j) == NewsFrom(oldCells, marked, i + 1, 0);
      } else {
        NewsFromSound(a, oldCells, marked, i, j + 1);
        CellNewsSound(a, oldCells, marked, i, j);
      }
    }

    /** What one cell adds holds under the same assignment, and so does the
        rest of the scan from that cell once the rest after it does. */
    lemma CellNewsSound(a: set<nat>, oldCells: seq<seq<int>>, marked: set<nat>, i: nat, j: nat)
      requires width > 0 && Shaped(cells, width, height) && Shaped(oldCells, width, height)
      requires i < height && j < width
      requires a <= FreeCells() && FreeCells() * marked <= a
      requires CountsTrue(a) && KeptRevealed(oldCells)
      requires NewsFrom(oldCells, marked, i, j + 1).Success? && AllHold(a, NewsFrom(oldCells, marked, i, j + 1).value)
      ensures CellNews(oldCells, marked, i, j).Success?
      ensures AllHold(a, CellNews(oldCells, marked, i, j).value)
      ensures NewsFrom(oldCells, marked, i, j).Success? && AllHold(a, NewsFrom(oldCells, marked, i, j).value)
    {
      if oldCells[i][j] == Covered && cells[i][j] != Covered {
        assert CountTrueAt(a, i, j);
        SentenceWithSound(a, marked, i, j);
      }
      var u, v := CellNews(oldCells, marked, i, j), NewsFrom(oldCells, marked, i, j + 1);
      assert NewsFrom(oldCells, marked, i, j) == Success(u.value + v.value);
      AllHoldAppend(a, u.value, v.value);
    }

    /** The sentences of the cells revealed since `oldCells`, in row-major
        order, trivial ones left out; a failure when a revealed cell changed
        or a new cell's sentence is inconsistent. */
    method CreateNewSentences(oldCells: seq<seq<int>>) returns (r: Result<seq<Sentence>, Error>)
      requires Valid() && Shaped(oldCells, width, height)
      ensures r.Success? <==> RevealedUnchanged(oldCells) && SentencesExistBefore(oldCells, height, 0)
      ensures r.Success? ==> CollectedBefore(oldCells, r.value, height, 0)
      ensures r.Success? ==> AllFromNewCells(oldCells, r.value)
      ensures r == NewsFrom(oldCells, MineSet(mines), 0, 0)
    {
      var out: seq<Sentence> := [];
      var i := 0;
      assert Prepend(out, NewsFrom(oldCells, MineSet(mines), 0, 0)) == NewsFrom(oldCells, MineSet(mines), 0, 0) by {
        if NewsFrom(oldCells, MineSet(mines), 0, 0).Success? {
          assert out + NewsFrom(oldCells, MineSet(mines), 0, 0).value == NewsFrom(oldCells, MineSet(mines), 0, 0).value;
        }
      }
      assert ScanReached(oldCells, out, i, 0);
      while i < height
        invariant 0 <= i <= height
        invariant ScanReached(oldCells, out, i, 0)
      {
        var row := RowSentences(oldCells, i, out);
        if row.Failure? {
          return row;
        }
        out := row.value;
        i := i + 1;
      }
      assert out + [] == out;
      return Success(out);
    }

    /** Row `i` of `CreateNewSentences`, appending to `out0`. */
    method RowSentences(oldCells: seq<seq<int>>, i: nat, out0: seq<Sentence>) returns (r: Result<seq<Sentence>, Error>)
      requires Valid() && Shaped(oldCells, width, height) && 0 <= i < height
      requires ScanReached(oldCells, out0, i, 0)
      ensures r.Failure? ==> !(RevealedUnchanged(oldCells) && SentencesExistBefore(oldCells, height, 0))
      ensures r.Failure? ==> r == NewsFrom(oldCells, MineSet(mines), 0, 0)
      ensures r.Success? ==> ScanReached(oldCells, r.value, i + 1, 0)
    {
      var out := out0;
      var j := 0;
      while j < width
        invariant 0 <= j <= width
        invariant ScanReached(oldCells, out, i, j)
      {
        var next := ScanAt(oldCells, i, j, out);
        if next.Failure? {
          return next;
        }
        out := next.value;
        j := j + 1;
      }
      assert NewsFrom(oldCells, MineSet(mines), i, j) == NewsFrom(oldCells, MineSet(mines), i + 1, 0);
      ScanNextRow(oldCells, out, i);
      return Success(out);
    }

    /** Where the row-major scan stands before the cell at row `i`, column
        `j`, having collected `out`. */
    ghost predicate ScanReached(oldCells: seq<seq<int>>, out: seq<Sentence>, i: nat, j: nat)
      reads this, mines
      requires Valid() && Shaped(oldCells, width, height)
    {
      UnchangedBefore(oldCells, i, j) && SentencesExistBefore(oldCells, i, j) &&
      CollectedBefore(oldCells, out, i, j) && AllFromNewCells(oldCells, out) &&
      NewsFrom(oldCells, MineSet(mines), 0, 0) == Prepend(out, NewsFrom(oldCells, MineSet(mines), i, j))
    }

    /** One step of the row-major scan: the cell at row `i`, column `j`
        keeps every scan invariant, or stops the scan with its failure. */
    method ScanAt(oldCells: seq<seq<int>>, i: nat, j: nat, out: seq<Sentence>) returns (r: Result<seq<Sentence>, Error>)
      requires Valid() && Shaped(oldCells, width, height) && i < height && j < width
      requires ScanReached(oldCells, out, i, j)
      ensures r.Failure? ==> r == NewsFrom(oldCells, MineSet(mines), 0, 0)
      ensures r.Failure? ==> !(RevealedUnchanged(oldCells) && SentencesExistBefore(oldCells, height, 0))
      ensures r.Success? ==> ScanReached(oldCells, r.value, i, j + 1)
    {
      NewsStep(oldCells, MineSet(mines), out, i, j);
      r := CellSentences(oldCells, i, j, out);
      if r.Success? {
        ScanStep(oldCells, out, r.value, i, j);
      }
    }

    /** The cell at row `i`, column `j` of the scan: what it adds to `out`,
        or the failure that stops the scan. */
    method CellSentences(oldCells: seq<seq<int>>, i: nat, j: nat, out: seq<Sentence>) returns (r: Result<seq<Sentence>, Error>)
      requires Valid() && Shaped(oldCells, width, height) && i < height && j < width
      requires AllFromNewCells(oldCells, out)
      ensures r.Failure? ==> r == CellNews(oldCells, MineSet(mines), i, j)
      ensures r.Failure? ==> !(RevealedUnchanged(oldCells) && SentencesExistBefore(oldCells, height, 0))
      ensures r.Success? ==> (CellNews(oldCells, MineSet(mines), i, j).Success? &&
        r.value == out + CellNews(oldCells, MineSet(mines), i, j).value && AllFromNewCells(oldCells, r.value))
      ensures r.Success? && oldCells[i][j] != Covered ==> oldCells[i][j] == cells[i][j]
      ensures r.Success? && NewlyRevealed(oldCells, i, j) ==> CellSentence(i, j).Success?
      ensures r.Success? && NewlyRevealed(oldCells, i, j) && !IsTrivial(CellSentence(i, j).value) ==>
        CellSentence(i, j).value in r.value
    {
      ghost var marked := MineSet(mines);
      if oldCells[i][j] != Covered {
        if oldCells[i][j] != cells[i][j] {
          assert !RevealedUnchanged(oldCells);
          return Failure(RevealedCellChanged);
        }
        assert out + [] == out;
        return Success(out);
      }
      if cells[i][j] == Covered {
        assert out + [] == out;
        return Success(out);
      }
      var s := GetCellSentence(i, j);
      if s.Failure? {
        assert !SentencesExistBefore(oldCells, height, 0);
        return Failure(s.error);
      }
      assert CellNews(oldCells, marked, i, j) == Success(if IsTrivial(s.value) then [] else [s.value]);
      if IsTrivial(s.value) {
        assert out + [] == out;
        return Success(out);
      }
      NewCellAdded(oldCells, out, i, j);
      return Success(out + [s.value]);
    }

    // -------------------------------------------------------- knowledge base

    /** Records what a sentence proves: its sure mines in the grid, its sure
        safes in the set; reports whether it proved anything. */
    method UpdateSafesAndMinesFromSentence(s: Sentence) returns (r: bool)
      requires Valid() && s.positions <= FreeCells()
      modifies this`safes, mines
      ensures Valid()
      ensures forall y, x :: 0 <= y < height && 0 <= x < width && old(mines[y, x]) ==> mines[y, x]
      ensures MineSet(mines) == old(MineSet(mines)) + SureMines(s)
      ensures safes == old(safes) + SureSafes(s)
      ensures r <==> SureMines(s) != {} || SureSafes(s) != {}
    {
      MarkMines(mines, SureMines(s));
      safes := safes + SureSafes(s);
      r := SureMines(s) != {} || SureSafes(s) != {};
    }

    /** The index of the first entry over the same cells as `s`, or the
        length of the knowledge base when there is none. */
    method FindCompeting(s: Sentence) returns (i: nat)
      ensures i <= |knowledge|
      ensures forall k :: 0 <= k < i ==> !IsCompeting(knowledge[k], s)
      ensures i < |knowledge| ==> IsCompeting(knowledge[i], s)
      ensures i == FirstCompeting(knowledge, s)
    {
      i := 0;
      while i < |knowledge| && !IsCompeting(knowledge[i], s)
        invariant 0 <= i <= |knowledge|
        invariant forall k :: 0 <= k < i ==> !IsCompeting(knowledge[k], s)
      {
        i := i + 1;
      }
    }

    /** `UpdateSafesAndMinesFromSentence` unless something was already
        recorded in this call (the source's short-circuiting `||`). */
    method Record(s: Sentence, addedSoFar: bool) returns (added: bool)
      requires Valid() && s.positions <= FreeCells()
      requires s.positions !! MineSet(mines) && s.positions !! safes
      modifies this`safes, mines
      ensures Valid()
      ensures forall y, x :: 0 <= y < height && 0 <= x < width && old(mines[y, x]) ==> mines[y, x]
      ensures old(MineSet(mines)) <= MineSet(mines) && old(safes) <= safes
      ensures addedSoFar ==> MineSet(mines) == old(MineSet(mines)) && safes == old(safes)
      ensures !addedSoFar ==> MineSet(mines) == old(MineSet(mines)) + SureMines(s) && safes == old(safes) + SureSafes(s)
      ensures added <==> addedSoFar || MineSet(mines) != old(MineSet(mines)) || safes != old(safes)
      ensures Note(Progress(knowledge, old(Known()), addedSoFar), s) == Progress(knowledge, Known(), added)
    {
      added := addedSoFar;
      if !added {
        ghost var before := MineSet(mines);
        added := UpdateSafesAndMinesFromSentence(s);
        assert SureMines(s) != {} ==> exists p :: p in SureMines(s) && p !in before;
      }
    }

    /** One step of `AddSentences`: reduce the sentence, record what it proves
        (unless something was already recorded in this call), reduce again,
        and place it. */
    method AddSentence(s: Sentence, addedSoFar: bool) returns (r: Result<bool, Error>)
      requires Valid()
      modifies this`knowledge, this`safes, mines
      ensures Valid()
      ensures forall y, x :: 0 <= y < height && 0 <= x < width && old(mines[y, x]) ==> mines[y, x]
      ensures old(MineSet(mines)) <= MineSet(mines) && old(safes) <= safes
      ensures addedSoFar ==> MineSet(mines) == old(MineSet(mines)) && safes == old(safes)
      ensures r.Success? ==>
        (r.value <==> addedSoFar || MineSet(mines) != old(MineSet(mines)) || safes != old(safes))
      ensures r.Success? ==> |old(knowledge)| <= |knowledge| <= |old(knowledge)| + 1
      ensures r.Success? && |knowledge| > |old(knowledge)| ==> (
        && knowledge[..|old(knowledge)|] == old(knowledge)
        && !IsTrivial(knowledge[|old(knowledge)|])
        && knowledge[|old(knowledge)|].positions <= s.positions
        && forall k :: 0 <= k < |old(knowledge)| ==> !IsCompeting(old(knowledge)[k], knowledge[|old(knowledge)|]))
      ensures r.Success? && |knowledge| == |old(knowledge)| ==>
        forall k :: 0 <= k < |knowledge| && knowledge[k] != old(knowledge)[k] ==>
          knowledge[k].positions <= old(knowledge)[k].positions
      ensures var step := AddStep(Progress(old(knowledge), old(Known()), addedSoFar), s);
        (r.Success? <==> step.Success?) && (r.Success? ==> step.value == Progress(knowledge, Known(), r.value))
    {
      AddStepShape(Progress(knowledge, Known(), addedSoFar), s);
      var reduced := Reduce(s, Known());
      if reduced.None? {
        return Failure(Inconsistent);
      }
      if IsTrivial(reduced.value) {
        return Success(addedSoFar);
      }
      var added := Record(reduced.value, addedSoFar);
      reduced := Reduce(reduced.value, Known());
      if reduced.None? {
        return Failure(Inconsistent);
      }
      if IsTrivial(reduced.value) {
        return Success(added);
      }
      r := PlaceSentence(reduced.value, added);
    }

    /** Appends `toAdd` when no entry covers the same cells; otherwise, if it
        tightens the first such entry, replaces that entry by the combined
        bounds, recorded and reduced twice. */
    method PlaceSentence(toAdd: Sentence, addedSoFar: bool) returns (r: Result<bool, Error>)
      requires Valid() && WellFormed(toAdd) && toAdd.positions <= FreeCells()
      modifies this`knowledge, this`safes, mines
      ensures Valid()
      ensures forall y, x :: 0 <= y < height && 0 <= x < width && old(mines[y, x]) ==> mines[y, x]
      ensures old(MineSet(mines)) <= MineSet(mines) && old(safes) <= safes
      ensures addedSoFar ==> MineSet(mines) == old(MineSet(mines)) && safes == old(safes)
      ensures var step := Place(Progress(old(knowledge), old(Known()), addedSoFar), toAdd);
        (r.Success? <==> step.Success?) && (r.Success? ==> step.value == Progress(knowledge, Known(), r.value))
    {
      var i := FindCompeting(toAdd);
      if i == |knowledge| {
        knowledge := knowledge + [toAdd];
        return Success(addedSoFar);
      } else if IsSomethingNewWith(toAdd, knowledge[i]) {
        r := Tighten(i, toAdd, addedSoFar);
        return;
      }
      return Success(addedSoFar);
    }

    /** Replaces entry `i`, which covers the same cells as `toAdd`, by the two
        bounds combined and narrowed. */
    method Tighten(i: nat, toAdd: Sentence, addedSoFar: bool) returns (r: Result<bool, Error>)
      requires Valid() && i < |knowledge| && IsCompeting(knowledge[i], toAdd)
      modifies this`knowledge, this`safes, mines
      ensures Valid()
      ensures forall y, x :: 0 <= y < height && 0 <= x < width && old(mines[y, x]) ==> mines[y, x]
      ensures old(MineSet(mines)) <= MineSet(mines) && old(safes) <= safes
      ensures addedSoFar ==> MineSet(mines) == old(MineSet(mines)) && safes == old(safes)
      ensures var step := Tightened(Progress(old(knowledge), old(Known()), addedSoFar), i, toAdd);
        (r.Success? <==> step.Success?) && (r.Success? ==> step.value == Progress(knowledge, Known(), r.value))
    {
      ghost var p0 := Progress(knowledge, Known(), addedSoFar);
      var combined := Combine(knowledge[i], toAdd);
      if combined.None? {
        return Failure(Inconsistent);
      }
      var narrowed := Narrow(combined.value, addedSoFar);
      ghost var step := Narrowed(p0, combined.value);
      if narrowed.Failure? {
        assert step.Failure?;
        return Failure(narrowed.error);
      }
      assert step == Success((narrowed.value.0, Progress(knowledge, Known(), narrowed.value.1)));
      knowledge := knowledge[i := narrowed.value.0];
      assert Tightened(p0, i, toAdd) == Success(Progress(knowledge, Known(), narrowed.value.1));
      return Success(narrowed.value.1);
    }

    /** Reduces a sentence, records what it proves (unless something was
        already recorded) and reduces it again. */
    method Narrow(combined: Sentence, addedSoFar: bool) returns (r: Result<(Sentence, bool), Error>)
      requires Valid()
      modifies this`safes, mines
      ensures Valid()
      ensures forall y, x :: 0 <= y < height && 0 <= x < width && old(mines[y, x]) ==> mines[y, x]
      ensures old(MineSet(mines)) <= MineSet(mines) && old(safes) <= safes
      ensures addedSoFar ==> MineSet(mines) == old(MineSet(mines)) && safes == old(safes)
      ensures r.Success? ==> r.value.0.positions <= FreeCells()
      ensures var step := Narrowed(Progress(knowledge, old(Known()), addedSoFar), combined);
        (r.Success? <==> step.Success?) &&
        (r.Success? ==> step.value == (r.value.0, Progress(knowledge, Known(), r.value.1)))
    {
      var narrowed := Reduce(combined, Known());
      if narrowed.None? {
        return Failure(Inconsistent);
      }
      var added := Record(narrowed.value, addedSoFar);
      var last := Reduce(narrowed.value, Known());
      if last.None? {
        return Failure(Inconsistent);
      }
      return Success((last.value, added));
    }

    /** Adds the sentences in order; reports whether any proven mine or safe
        was recorded. */
    method AddSentences(sentences: seq<Sentence>) returns (r: Result<bool, Error>)
      requires Valid()
      modifies this`knowledge, this`safes, mines
      ensures Valid()
      ensures forall y, x :: 0 <= y < height && 0 <= x < width && old(mines[y, x]) ==> mines[y, x]
      ensures old(MineSet(mines)) <= MineSet(mines) && old(safes) <= safes
      ensures r.Success? ==> (r.value <==> MineSet(mines) != old(MineSet(mines)) || safes != old(safes))
      ensures r.Success? ==> |old(knowledge)| <= |knowledge| <= |old(knowledge)| + |sentences|
      ensures var spec := AddAll(Progress(old(knowledge), old(Known()), false), sentences);
        (r.Success? <==> spec.Success?) && (r.Success? ==> spec.value == Progress(knowledge, Known(), r.value))
      ensures forall a :: old(Models(a)) && AllHold(a, sentences) ==> r.Success? && Models(a)
    {
      ghost var spec := AddAll(Progress(knowledge, Known(), false), sentences);
      forall a | Models(a) && AllHold(a, sentences)
        ensures spec.Success? && Satisfies(a, spec.value)
      {
        AddAllSound(a, Progress(knowledge, Known(), false), sentences);
      }
      var added := false;
      var k := 0;
      while k < |sentences|
        invariant 0 <= k <= |sentences|
        invariant Valid()
        invariant forall y, x :: 0 <= y < height && 0 <= x < width && old(mines[y, x]) ==> mines[y, x]
        invariant old(MineSet(mines)) <= MineSet(mines) && old(safes) <= safes
        invariant added <==> MineSet(mines) != old(MineSet(mines)) || safes != old(safes)
        invariant |old(knowledge)| <= |knowledge| <= |old(knowledge)| + k
        invariant AddAll(Progress(knowledge, Known(), added), sentences[k..]) == spec
      {
        assert sentences[k..][1..] == sentences[k + 1..];
        var step := AddSentence(sentences[k], added);
        if step.Failure? {
          return Failure(step.error);
        }
        added := step.value;
        k := k + 1;
      }
      return Success(added);
    }

    /** The knowledge base is consistent with assignment `a`: the assignment
        agrees with the proven facts and satisfies every sentence. */
    ghost predicate Models(a: set<nat>)
      reads this, mines
      requires Valid()
    {
      Consistent(a, Known()) && AllHold(a, knowledge)
    }

    /** The sentences forward chaining derives from every ordered pair of
        distinct entries, reduced, with trivial ones and ones already in the
        knowledge base left out. On a knowledge base that some assignment
        models, no assertion fails and every derived sentence holds for every
        such assignment. */
    method ForwardChain() returns (r: Result<seq<Sentence>, Error>)
      requires Valid()
      ensures r == Chained(knowledge, Known())
      ensures r.Success? ==> forall x :: x in r.value ==> Settled(x, Known()) && x !in knowledge
      ensures r.Success? ==> forall a :: Models(a) ==> AllHold(a, r.value)
      ensures (exists a :: Models(a)) ==> r.Success?
    {
      ChainedSettled(knowledge, Known());
      ChainedFresh(knowledge, Known());
      forall a | Models(a)
        ensures Chained(knowledge, Known()).Success? && AllHold(a, Chained(knowledge, Known()).value)
      {
        ChainedSound(a, knowledge, Known());
      }
      var candidates := Candidates(knowledge, Known());
      if candidates.Failure? {
        return Failure(candidates.error);
      }
      var unseen := RemoveDuplicateSentences(candidates.value);
      return Success(unseen);
    }

    /** The given sentences, in order, that equal no entry of the knowledge base. */
    method RemoveDuplicateSentences(sentences: seq<Sentence>) returns (r: seq<Sentence>)
      requires Valid()
      ensures r == NotIn(sentences, knowledge)
    {
      r := [];
      var k := 0;
      while k < |sentences|
        invariant 0 <= k <= |sentences|
        invariant r == NotIn(sentences[..k], knowledge)
      {
        var isDuplicate := false;
        var m := 0;
        while m < |knowledge|
          invariant 0 <= m <= |knowledge|
          invariant isDuplicate <==> sentences[k] in knowledge[..m]
        {
          if Equals(sentences[k], knowledge[m]) {
            isDuplicate := true;
            break;
          }
          m := m + 1;
        }
        assert knowledge[..|knowledge|] == knowledge;
        if !isDuplicate {
          r := r + [sentences[k]];
        }
        assert sentences[..k + 1][..k] == sentences[..k];
        k := k + 1;
      }
      assert sentences[..|sentences|] == sentences;
    }

    /** Rebuilds the knowledge base against the current board and facts. */
    method Cleanup() returns (r: Result<(seq<Sentence>, bool), Error>)
      requires Valid()
      modifies this`knowledge, this`safes, mines
      ensures Valid()
      ensures forall y, x :: 0 <= y < height && 0 <= x < width && old(mines[y, x]) ==> mines[y, x]
      ensures old(MineSet(mines)) <= MineSet(mines) && old(safes) <= safes
      ensures r.Success? ==> (r.value.1 <==> MineSet(mines) != old(MineSet(mines)) || safes != old(safes))
      ensures r.Success? ==> forall x :: x in r.value.0 ==>
        !IsTrivial(x) && x !in knowledge && Reduce(x, Known()) == Some(x)
      ensures var spec := Rebuilt(old(knowledge), old(Known()));
        (r.Success? <==> spec.Success?) &&
        (r.Success? ==> spec.value.0 == Progress(knowledge, Known(), r.value.1) && r.value.0 == spec.value.1)
    {
      var oldKnowledge := knowledge;
      knowledge := [];
      var added := AddSentences(oldKnowledge);
      if added.Failure? {
        return Failure(added.error);
      }
      var next := ForwardChain();
      if next.Failure? {
        return Failure(next.error);
      }
      return Success((next.value, added.value));
    }

    /** Starts a cycle on a new board: forgets the safes, takes the board, and
        re-adds every old sentence (which reduces it against the new board). */
    method CleanKnowledgeBase(board: seq<seq<int>>) returns (r: Result<(), Error>)
      requires Valid() && Shaped(board, width, height)
      modifies this`knowledge, this`safes, this`cells, mines
      ensures Valid() && cells == board
      ensures forall y, x :: 0 <= y < height && 0 <= x < width && old(mines[y, x]) ==> mines[y, x]
      ensures var spec := AddAll(Progress([], Facts(FreeCells(), old(MineSet(mines)), {}), false), old(knowledge));
        (r.Success? <==> spec.Success?) &&
        (r.Success? ==> knowledge == spec.value.knowledge && Known() == spec.value.facts)
    {
      safes := {};
      var oldKnowledge := knowledge;
      knowledge := [];
      cells := board;
      ghost var start := Progress([], Facts(FreeCells(), old(MineSet(mines)), {}), false);
      assert Known() == start.facts;
      var added := AddSentences(oldKnowledge);
      assert FreeCells() == start.facts.free;
      if added.Failure? {
        return Failure(added.error);
      }
      return Success(());
    }

    // ----------------------------------------------------------------- moves

    /** Whether every covered cell is a proven mine. */
    method IsGameFinished() returns (finished: bool)
      requires Valid()
      ensures finished <==> Unresolved(cells, mines, Covered) == {}
    {
      finished := IsFinished(cells, mines, Covered);
    }

    /** A covered cell that is not a proven mine, at rank `seed % count` in
        row-major order (the seed stands for the random draw). */
    method RandomCell(seed: nat) returns (c: Coordinate)
      requires Valid() && Unresolved(cells, mines, Covered) != {}
      ensures InGrid(width, height, c) && CoordToNum(width, c) in Unresolved(cells, mines, Covered)
      ensures RankedAt(Unresolved(cells, mines, Covered), CoordToNum(width, c), seed)
    {
      c := PickUnresolved(cells, mines, Covered, seed);
    }

    /** Every proven-safe cell if there is one; otherwise one covered cell that
        is not a proven mine if there is one; otherwise nothing. */
    method GetCellsToOpen(seed: nat) returns (r: seq<Coordinate>)
      requires Valid()
      ensures safes != {} ==> (|r| == |safes| &&
        (forall p :: p in safes ==> NumToCoord(width, p) in r) &&
        (forall k :: 0 <= k < |r| ==> InGrid(width, height, r[k]) && CoordToNum(width, r[k]) in safes))
      ensures safes == {} && Unresolved(cells, mines, Covered) != {} ==> (|r| == 1 &&
        InGrid(width, height, r[0]) && CoordToNum(width, r[0]) in Unresolved(cells, mines, Covered) &&
        RankedAt(Unresolved(cells, mines, Covered), CoordToNum(width, r[0]), seed))
      ensures safes == {} && Unresolved(cells, mines, Covered) == {} ==> r == []
    {
      if safes != {} {
        r := CoordsOf(width, height, safes);
        return;
      }
      var finished := IsGameFinished();
      if !finished {
        var c := RandomCell(seed);
        return [c];
      }
      return [];
    }

    /** The loop of an update: while something new was recorded or sentences
        are waiting, and at most `fuel` times, adds the waiting sentences and
        cleans up the knowledge base, whose chained sentences wait next. */
    method RunRounds(newSentences0: seq<Sentence>, fuel: nat) returns (r: Result<(), Error>)
      requires Valid()
      modifies this`knowledge, this`safes, mines
      ensures Valid()
      ensures forall y, x :: 0 <= y < height && 0 <= x < width && old(mines[y, x]) ==> mines[y, x]
      ensures var spec := Rounds(old(knowledge), old(Known()), newSentences0, true, fuel);
        (r.Success? <==> spec.Success?) &&
        (r.Success? ==> knowledge == spec.value.knowledge && Known() == spec.value.facts)
    {
      ghost var spec := Rounds(knowledge, Known(), newSentences0, true, fuel);
      var newSentences := newSentences0;
      var isNewKnowledgeAdded := true;
      var left := fuel;
      while isNewKnowledgeAdded || |newSentences| > 0
        invariant Valid()
        invariant forall y, x :: 0 <= y < height && 0 <= x < width && old(mines[y, x]) ==> mines[y, x]
        invariant Rounds(knowledge, Known(), newSentences, isNewKnowledgeAdded, left) == spec
        decreases left
      {
        if left == 0 {
          break;
        }
        ghost var before := left;
        left := left - 1;
        RoundsStep(knowledge, Known(), newSentences, isNewKnowledgeAdded, before, left);
        var added := AddSentences(newSentences);
        if added.Failure? {
          return Failure(added.error);
        }
        var cleanup := Cleanup();
        if cleanup.Failure? {
          return Failure(cleanup.error);
        }
        newSentences := cleanup.value.0;
        isNewKnowledgeAdded := added.value || cleanup.value.1;
      }
      return Success(());
    }

    /** The knowledge base and facts an update arrives at, once `cells` is the
        new board: from the knowledge base `kb0` and the proven mines `mines0`
        it had on the board `oldCells`, with `fuel` rounds at most. */
    ghost function Outcome(oldCells: seq<seq<int>>, kb0: seq<Sentence>, mines0: set<nat>, fuel: nat): Result<Progress, Error>
      reads this`cells
      requires width > 0 && Shaped(cells, width, height) && Shaped(oldCells, width, height)
    {
      match AddAll(Progress([], Facts(FreeCells(), mines0, {}), false), kb0)
      case Failure(e) => Failure(e)
      case Success(start) =>
        match NewsFrom(oldCells, start.facts.mines, 0, 0)
        case Failure(e) => Failure(e)
        case Success(news) => Rounds(start.knowledge, start.facts, news, true, fuel)
    }

    /** An update on a board whose numbers are true of a mine set `a`, which
        keeps what `oldCells` showed, never fails when `a` contains the old
        proven mines that are still covered and satisfies the old knowledge
        base; and `a` satisfies what the update arrives at. */
    lemma OutcomeSound(a: set<nat>, oldCells: seq<seq<int>>, kb0: seq<Sentence>, mines0: set<nat>, fuel: nat)
      requires width > 0 && Shaped(cells, width, height) && Shaped(oldCells, width, height)
      requires a <= FreeCells() && FreeCells() * mines0 <= a && AllHold(a, kb0)
      requires CountsTrue(a) && KeptRevealed(oldCells)
      ensures Outcome(oldCells, kb0, mines0, fuel).Success?
      ensures Satisfies(a, Outcome(oldCells, kb0, mines0, fuel).value)
    {
      var p0 := Progress([], Facts(FreeCells(), mines0, {}), false);
      AddAllSound(a, p0, kb0);
      var start := AddAll(p0, kb0).value;
      NewsFromSound(a, oldCells, start.facts.mines, 0, 0);
      var news := NewsFrom(oldCells, start.facts.mines, 0, 0).value;
      RoundsSound(a, start.knowledge, start.facts, news, true, fuel);
    }

    /**
     * One update cycle on a new board. `fuel` bounds the rounds of forward
     * chaining (the source stops after a wall-clock time limit instead) and
     * `seed` stands for the random draw of a guess.
     */
    method Update(board: seq<seq<int>>, fuel: nat, seed: nat) returns (r: Result<seq<Coordinate>, Error>)
      requires Valid() && Shaped(board, width, height)
      modifies this`knowledge, this`safes, this`cells, mines
      ensures Valid() && cells == board
      ensures forall y, x :: 0 <= y < height && 0 <= x < width && old(mines[y, x]) ==> mines[y, x]
      ensures r.Success? ==> forall i, j :: 0 <= i < height && 0 <= j < width && old(cells)[i][j] != Covered ==>
        board[i][j] == old(cells)[i][j]
      ensures r.Success? && safes != {} ==> (|r.value| == |safes| &&
        (forall p :: p in safes ==> NumToCoord(width, p) in r.value) &&
        (forall k :: 0 <= k < |r.value| ==> InGrid(width, height, r.value[k]) && CoordToNum(width, r.value[k]) in safes))
      ensures r.Success? && safes == {} && Unresolved(board, mines, Covered) != {} ==> (|r.value| == 1 &&
        InGrid(width, height, r.value[0]) && CoordToNum(width, r.value[0]) in Unresolved(board, mines, Covered))
      ensures r.Success? && safes == {} && Unresolved(board, mines, Covered) == {} ==> r.value == []
      ensures var spec := Outcome(old(cells), old(knowledge), old(MineSet(mines)), fuel);
        (r.Success? <==> spec.Success?) &&
        (r.Success? ==> knowledge == spec.value.knowledge && Known() == spec.value.facts)
    {
      var oldCells := cells;
      var cleaned := CleanKnowledgeBase(board);
      if cleaned.Failure? {
        return Failure(cleaned.error);
      }
      var created := CreateNewSentences(oldCells);
      if created.Failure? {
        return Failure(created.error);
      }
      assert Known().mines == MineSet(mines);
      var done := RunRounds(created.value, fuel);
      if done.Failure? {
        return Failure(done.error);
      }
      var moves := GetCellsToOpen(seed);
      return Success(moves);
    }
  }

  /** The informative sentences derived from one ordered pair, each reduced
      against what is known. */
  method ChainPair(s: Sentence, t: Sentence, f: Facts) returns (r: Result<seq<Sentence>, Error>)
    ensures r == PairChain(s, t, f)
    ensures r.Success? ==> forall x :: x in r.value <==>
      exists y :: y in NewSentences(s, t).value && Reduce(y, f) == Some(x) && !IsTrivial(x)
    ensures r.Success? ==> forall x :: x in r.value ==> Settled(x, f)
    ensures forall a :: Consistent(a, f) && Holds(a, s) && Holds(a, t) ==>
      r.Success? && AllHold(a, r.value)
  {
    forall a | Consistent(a, f) && Holds(a, s) && Holds(a, t)
      ensures PairChain(s, t, f).Success? && AllHold(a, PairChain(s, t, f).value)
    {
      PairChainSound(a, s, t, f);
    }
    var pair := NewSentences(s, t);
    if pair.None? {
      return Failure(Inconsistent);
    }
    ReduceAllMembers(pair.value, f);
    r := ReduceEach(pair.value, f);
  }

  /** Each of `ps` reduced against `f` in order, the trivial ones dropped;
      fails at the first reduction that breaks the bounds. */
  method ReduceEach(ps: seq<Sentence>, f: Facts) returns (r: Result<seq<Sentence>, Error>)
    ensures r == ReduceAll(ps, f)
  {
    var out: seq<Sentence> := [];
    var k := 0;
    assert ps[0..] == ps;
    assert Prepend(out, ReduceAll(ps, f)) == ReduceAll(ps, f) by {
      if ReduceAll(ps, f).Success? {
        assert out + ReduceAll(ps, f).value == ReduceAll(ps, f).value;
      }
    }
    while k < |ps|
      invariant 0 <= k <= |ps|
      invariant ReduceAll(ps, f) == Prepend(out, ReduceAll(ps[k..], f))
    {
      assert ps[k..][1..] == ps[k + 1..];
      var reduced := Reduce(ps[k], f);
      if reduced.None? {
        return Failure(Inconsistent);
      }
      ghost var kept := if IsTrivial(reduced.value) then [] else [reduced.value];
      PrependJoin(out, Success(kept), ReduceAll(ps[k + 1..], f));
      if !IsTrivial(reduced.value) {
        out := out + [reduced.value];
      } else {
        assert out + [] == out;
      }
      k := k + 1;
    }
    assert out + [] == out;
    return Success(out);
  }

  /** What every ordered pair of distinct entries derives, row by row. */
  method Candidates(kb: seq<Sentence>, f: Facts) returns (r: Result<seq<Sentence>, Error>)
    ensures r == ChainFrom(kb, PairsAgainst(f), 0)
  {
    ghost var pair := PairsAgainst(f);
    var candidates: seq<Sentence> := [];
    var i := 0;
    assert Prepend(candidates, ChainFrom(kb, pair, 0)) == ChainFrom(kb, pair, 0) by {
      if ChainFrom(kb, pair, 0).Success? {
        assert candidates + ChainFrom(kb, pair, 0).value == ChainFrom(kb, pair, 0).value;
      }
    }
    while i < |kb|
      invariant 0 <= i <= |kb|
      invariant ChainFrom(kb, pair, 0) == Prepend(candidates, ChainFrom(kb, pair, i))
    {
      PrependJoin(candidates, RowChain(kb, pair, i, 0), ChainFrom(kb, pair, i + 1));
      var row := ChainRow(kb, f, i, candidates);
      if row.Failure? {
        return row;
      }
      candidates := row.value;
      i := i + 1;
    }
    assert candidates + [] == candidates;
    return Success(candidates);
  }

  /** One pass of the loop of `ChainRow`: what the pair `(kb[i], kb[j])`
      derives, appended to `candidates`, unless `i == j`. */
  method ChainAt(kb: seq<Sentence>, f: Facts, i: nat, j: nat, candidates: seq<Sentence>) returns (r: Result<seq<Sentence>, Error>)
    requires i < |kb| && j < |kb|
    ensures Prepend(candidates, RowChain(kb, PairsAgainst(f), i, j)) ==
      if r.Failure? then r else Prepend(r.value, RowChain(kb, PairsAgainst(f), i, j + 1))
  {
    if i == j {
      return Success(candidates);
    }
    var derived := ChainPair(kb[i], kb[j], f);
    PrependJoin(candidates, derived, RowChain(kb, PairsAgainst(f), i, j + 1));
    if derived.Failure? {
      return derived;
    }
    return Success(candidates + derived.value);
  }

  /** Row `i` of `Candidates`: what the pairs `(kb[i], kb[j])`, `j != i`,
      derive, appended to `candidates0`. */
  method ChainRow(kb: seq<Sentence>, f: Facts, i: nat, candidates0: seq<Sentence>) returns (r: Result<seq<Sentence>, Error>)
    requires i < |kb|
    ensures r == Prepend(candidates0, RowChain(kb, PairsAgainst(f), i, 0))
  {
    ghost var pair := PairsAgainst(f);
    var candidates := candidates0;
    var j := 0;
    while j < |kb|
      invariant 0 <= j <= |kb|
      invariant Prepend(candidates0, RowChain(kb, pair, i, 0)) == Prepend(candidates, RowChain(kb, pair, i, j))
    {
      var next := ChainAt(kb, f, i, j, candidates);
      if next.Failure? {
        return next;
      }
      candidates := next.value;
      j := j + 1;
    }
    assert candidates + [] == candidates;
    return Success(candidates);
  }
}
