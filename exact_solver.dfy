/**
 * The exact-count solver. A sentence says that exactly `count` of its cells
 * are mines; it is an object whose cell set and count `Clean` updates in
 * place. The solver keeps a knowledge base of such sentences with pairwise
 * different cell sets, a grid of proven mines that is never cleared, and the
 * set of cells proven safe in the current update cycle. Forward chaining only
 * combines two sentences when the cells of one are a subset of the other's.
 *
 * A board is a grid of rows; `-1` marks a covered cell, any other value is the
 * number a revealed cell shows.
 */
module ExactSolver {
  import opened Wrappers
  import opened Board

  /** The value that marks a covered cell on this solver's boards. */
  const Covered := -1

  /** The value a sentence stands for: exactly `count` of `cells` are mines. */
  datatype Claim = Claim(cells: set<nat>, count: int)

  /** The invariant the sentence constructor asserts. */
  predicate WellFormed(c: Claim)
  {
    0 <= c.count <= |c.cells|
  }

  /** The assignment that puts a mine on exactly the cells of `a` satisfies `c`. */
  predicate Holds(a: set<nat>, c: Claim)
  {
    |a * c.cells| == c.count
  }

  /** What forward chaining derives from two sentences: when the cells of one
      are a subset of the other's (the first tried first), the remaining
      cells carry the difference of the counts. */
  function Deduction(x: Claim, y: Claim): Option<Claim>
  {
    if x.cells <= y.cells then Some(Claim(y.cells - x.cells, y.count - x.count))
    else if y.cells <= x.cells then Some(Claim(x.cells - y.cells, x.count - y.count))
    else None
  }

  /** A deduction exists exactly when one cell set contains the other; the
      larger sentence then splits into the smaller one and the deduced one. */
  lemma DeductionSplits(x: Claim, y: Claim)
    ensures Deduction(x, y).Some? <==> x.cells <= y.cells || y.cells <= x.cells
    ensures Deduction(x, y).Some? ==>
      var (small, large) := if x.cells <= y.cells then (x, y) else (y, x);
      var d := Deduction(x, y).value;
      d.cells + small.cells == large.cells && d.cells !! small.cells && d.count + small.count == large.count
  {
  }

  /** Deduction is sound: for an assignment satisfying both sentences, the
      derived sentence is well formed (so the constructor's assertion holds)
      and the assignment satisfies it too. */
  lemma DeductionSound(a: set<nat>, x: Claim, y: Claim)
    requires Holds(a, x) && Holds(a, y) && Deduction(x, y).Some?
    ensures WellFormed(Deduction(x, y).value) && Holds(a, Deduction(x, y).value)
  {
    DeductionSplits(x, y);
    var d := Deduction(x, y).value;
    var small := if x.cells <= y.cells then x else y;
    CountSplit(a, d.cells, small.cells);
    CountAtMostSize(a, d.cells);
  }

  /** The cells of a sentence whose count equals its size are all mines. */
  lemma AllMines(cells: set<nat>)
    ensures forall a :: Holds(a, Claim(cells, |cells|)) ==> cells <= a
  {
    forall a | Holds(a, Claim(cells, |cells|)) ensures cells <= a {
      SubsetSameSize(a * cells, cells);
    }
  }

  /** The cells of a sentence whose count is zero are all safe. */
  lemma NoMines(cells: set<nat>)
    ensures forall a :: Holds(a, Claim(cells, 0)) ==> cells !! a
  {
    forall a, p | Holds(a, Claim(cells, 0)) && p in cells ensures p !in a {
      assert p in a ==> p in a * cells;
    }
  }

  // ------------------------------------------------------ forward chaining

  /** The sentences entry `i` of `kb` deduces with entries `0 .. j - 1`, in order. */
  function RowDeductions(kb: seq<Claim>, i: int, j: int): seq<Claim>
    requires 0 <= i < |kb| && 0 <= j <= |kb|
    decreases j
  {
    if j == 0 then []
    else if i != j - 1 && Deduction(kb[i], kb[j - 1]).Some? then
      RowDeductions(kb, i, j - 1) + [Deduction(kb[i], kb[j - 1]).value]
    else RowDeductions(kb, i, j - 1)
  }

  /** The sentences entries `0 .. i - 1` of `kb` deduce with every other entry. */
  function Deductions(kb: seq<Claim>, i: int): seq<Claim>
    requires 0 <= i <= |kb|
  {
    Flatten(Rows(kb, i))
  }

  /** Rows `0 .. i - 1` of forward chaining over `kb`. */
  function Rows(kb: seq<Claim>, i: int): seq<seq<Claim>>
    requires 0 <= i <= |kb|
  {
    seq(i, k requires 0 <= k < i => RowDeductions(kb, k, |kb|))
  }

  /** The rows, concatenated in order. */
  function Flatten(rows: seq<seq<Claim>>): seq<Claim>
  {
    if rows == [] then [] else Flatten(rows[..|rows| - 1]) + rows[|rows| - 1]
  }

  /** Chaining one more entry appends its row. */
  lemma DeductionsStep(kb: seq<Claim>, i: int)
    requires 0 <= i < |kb|
    ensures Deductions(kb, i + 1) == Deductions(kb, i) + RowDeductions(kb, i, |kb|)
  {
    assert Rows(kb, i + 1)[..i] == Rows(kb, i);
  }

  /** Whatever a row holds, the concatenation holds. */
  lemma {:induction false} FlattenHas(rows: seq<seq<Claim>>, k: int, c: Claim)
    requires 0 <= k < |rows| && c in rows[k]
    ensures c in Flatten(rows)
    decreases |rows|
  {
    var n := |rows| - 1;
    if k < n {
      FlattenHas(rows[..n], k, c);
      assert rows[..n][k] == rows[k];
    }
  }

  /** Whatever the concatenation holds comes from one of the rows. */
  lemma {:induction false} FlattenFrom(rows: seq<seq<Claim>>, c: Claim) returns (k: int)
    requires c in Flatten(rows)
    ensures 0 <= k < |rows| && c in rows[k]
    decreases |rows|
  {
    var n := |rows| - 1;
    if c in rows[n] {
      k := n;
    } else {
      k := FlattenFrom(rows[..n], c);
      assert rows[..n][k] == rows[k];
    }
  }

  /** Every deduction of entry `i` with entries `0 .. j - 1` is well formed. */
  ghost predicate RowChainable(kb: seq<Claim>, i: int, j: int)
    requires 0 <= i < |kb| && 0 <= j <= |kb|
  {
    forall j' :: 0 <= j' < j && j' != i && Deduction(kb[i], kb[j']).Some? ==> WellFormed(Deduction(kb[i], kb[j']).value)
  }

  /** Chaining entry `i` with entry `j` extends the row by what they deduce. */
  lemma RowStep(kb: seq<Claim>, i: int, j: int)
    requires 0 <= i < |kb| && 0 <= j < |kb|
    ensures RowDeductions(kb, i, j + 1) ==
      if i != j && Deduction(kb[i], kb[j]).Some? then RowDeductions(kb, i, j) + [Deduction(kb[i], kb[j]).value]
      else RowDeductions(kb, i, j)
    ensures RowChainable(kb, i, j + 1) <==>
      RowChainable(kb, i, j) && (i != j && Deduction(kb[i], kb[j]).Some? ==> WellFormed(Deduction(kb[i], kb[j]).value))
    ensures i != j && Deduction(kb[i], kb[j]).Some? && !WellFormed(Deduction(kb[i], kb[j]).value) ==>
      !RowChainable(kb, i, |kb|)
  {
  }

  /** Every deduction of entries `0 .. i - 1` is well formed. */
  ghost predicate Chainable(kb: seq<Claim>, i: int)
    requires 0 <= i <= |kb|
  {
    forall i' :: 0 <= i' < i ==> RowChainable(kb, i', |kb|)
  }

  /** `c` is what two distinct entries of `kb` deduce. */
  ghost predicate DeducedFrom(kb: seq<Claim>, c: Claim)
  {
    exists i, j :: 0 <= i < |kb| && 0 <= j < |kb| && i != j && Deduction(kb[i], kb[j]) == Some(c)
  }

  /** The assignment satisfies every sentence of `ss`. */
  ghost predicate AllHold(a: set<nat>, ss: seq<Claim>)
  {
    forall c :: c in ss ==> Holds(a, c)
  }

  /** Chaining stops at row `i` only where that row breaks the condition. */
  lemma NotChainable(kb: seq<Claim>, i: int)
    requires 0 <= i < |kb| && !RowChainable(kb, i, |kb|)
    ensures !Chainable(kb, |kb|)
  {
  }

  /** Whatever row `i` yields comes from entry `i` and another entry. */
  lemma {:induction false} RowDeductionsDerived(kb: seq<Claim>, i: int, j: int, c: Claim)
    requires 0 <= i < |kb| && 0 <= j <= |kb| && c in RowDeductions(kb, i, j)
    ensures DeducedFrom(kb, c)
    decreases j
  {
    var r := RowDeductions(kb, i, j - 1);
    if i != j - 1 && Deduction(kb[i], kb[j - 1]).Some? && c !in r {
      assert Deduction(kb[i], kb[j - 1]) == Some(c);
    } else {
      RowDeductionsDerived(kb, i, j - 1, c);
    }
  }

  /** Every sentence forward chaining produces comes from two distinct entries. */
  lemma DeductionsDerived(kb: seq<Claim>, c: Claim)
    requires c in Deductions(kb, |kb|)
    ensures DeducedFrom(kb, c)
  {
    var k := FlattenFrom(Rows(kb, |kb|), c);
    RowDeductionsDerived(kb, k, |kb|, c);
  }

  /** Row `i` holds what entry `i` deduces with every other entry below `j`. */
  lemma {:induction false} RowDeductionsComplete(kb: seq<Claim>, i: int, j: int, j': int)
    requires 0 <= i < |kb| && 0 <= j' < j <= |kb| && i != j'
    requires Deduction(kb[i], kb[j']).Some?
    ensures Deduction(kb[i], kb[j']).value in RowDeductions(kb, i, j)
    decreases j
  {
    if j' < j - 1 {
      RowDeductionsComplete(kb, i, j - 1, j');
    }
  }

  /** Forward chaining misses no pair: whatever two distinct entries deduce
      is among its results. */
  lemma DeductionsComplete(kb: seq<Claim>, i: int, j: int)
    requires 0 <= i < |kb| && 0 <= j < |kb| && i != j
    requires Deduction(kb[i], kb[j]).Some?
    ensures Deduction(kb[i], kb[j]).value in Deductions(kb, |kb|)
  {
    RowDeductionsComplete(kb, i, |kb|, j);
    FlattenHas(Rows(kb, |kb|), i, Deduction(kb[i], kb[j]).value);
  }

  /** On a knowledge base an assignment satisfies, chaining never breaks the
      constructor's assertion, and every result holds too. */
  lemma ChainingSound(a: set<nat>, kb: seq<Claim>)
    requires AllHold(a, kb)
    ensures Chainable(kb, |kb|)
    ensures AllHold(a, Deductions(kb, |kb|))
  {
    forall i', j' | 0 <= i' < |kb| && 0 <= j' < |kb| && i' != j' && Deduction(kb[i'], kb[j']).Some?
      ensures WellFormed(Deduction(kb[i'], kb[j']).value) && Holds(a, Deduction(kb[i'], kb[j']).value)
    {
      DeductionSound(a, kb[i'], kb[j']);
    }
    forall c | c in Deductions(kb, |kb|) ensures Holds(a, c) {
      DeductionsDerived(kb, c);
    }
  }

  /** Deductions from sentences over cells below `size` are over such cells. */
  lemma DeductionsOnBoard(kb: seq<Claim>, size: int)
    requires forall c :: c in kb ==> forall n :: n in c.cells ==> n < size
    ensures forall c :: c in Deductions(kb, |kb|) ==> forall n :: n in c.cells ==> n < size
  {
    forall c | c in Deductions(kb, |kb|) ensures forall n :: n in c.cells ==> n < size {
      DeductionsDerived(kb, c);
    }
  }

  // ------------------------------------------------- knowledge on values

  /** `c` without the cells of `mines`, each lowering the count, and without
      the cells of `safe`: what cleaning a sentence leaves. */
  function Scrub(c: Claim, mines: set<nat>, safe: set<nat>): Claim
  {
    Claim(c.cells - mines - safe, c.count - |c.cells * mines|)
  }

  /** Scrubbing is sound for an assignment with a mine on every cell of
      `mines` and none on the other cells of `safe`, and leaves none of them. */
  lemma ScrubSound(a: set<nat>, c: Claim, mines: set<nat>, safe: set<nat>)
    requires mines <= a && a !! (safe - mines) && Holds(a, c)
    ensures Holds(a, Scrub(c, mines, safe))
    ensures Scrub(c, mines, safe).cells !! mines && Scrub(c, mines, safe).cells !! safe
  {
    var marked := c.cells * mines;
    var unmarked := c.cells * safe - mines;
    var rest := Scrub(c, mines, safe).cells;
    assert c.cells == marked + unmarked + rest;
    CountSplit(a, marked + unmarked, rest);
    CountSplit(a, marked, unmarked);
    assert a * marked == marked;
    assert a * unmarked == {};
  }

  /** What a run of `addSentence` calls has produced: the sentences of the
      knowledge base, the proven mines and safes, whether some sentence was
      resolved into mines or safes (`derived`) and whether one was appended
      (`added`). */
  datatype Tally = Tally(claims: seq<Claim>, mines: set<nat>, safes: set<nat>, derived: bool, added: bool)

  /** Some sentence of `claims` is over `cells`. */
  predicate Covers(claims: seq<Claim>, cells: set<nat>)
    decreases |claims|
  {
    claims != [] && (claims[|claims| - 1].cells == cells || Covers(claims[..|claims| - 1], cells))
  }

  lemma {:induction false} CoversSome(claims: seq<Claim>, cells: set<nat>)
    ensures Covers(claims, cells) <==> exists k :: 0 <= k < |claims| && claims[k].cells == cells
    decreases |claims|
  {
    if claims != [] {
      var init := claims[..|claims| - 1];
      CoversSome(init, cells);
      if exists k :: 0 <= k < |claims| && claims[k].cells == cells {
        var k :| 0 <= k < |claims| && claims[k].cells == cells;
        if k < |init| {
          assert init[k] == claims[k];
        }
      }
    }
  }

  /** `addSentence` once the sentence `d` is cleaned: all its cells are mines
      when the count is their number, all are safe when it is zero; otherwise
      it is dropped when a sentence over the same cells is known, and
      appended if not. */
  function Settle(t: Tally, d: Claim): Tally
  {
    if |d.cells| == d.count then t.(mines := t.mines + d.cells, derived := true)
    else if d.count == 0 then t.(safes := t.safes + d.cells, derived := true)
    else if Covers(t.claims, d.cells) then t
    else t.(claims := t.claims + [d], added := true)
  }

  /** A sentence that determines no cell is dropped when `known` says a
      sentence over the same cells is known, and appended otherwise. */
  lemma SettleUndecided(t: Tally, d: Claim, known: bool)
    requires !t.added && |d.cells| != d.count && d.count != 0 && (known <==> Covers(t.claims, d.cells))
    ensures Settle(t, d) == if known then t else t.(claims := t.claims + [d], added := true)
  {
  }

  /** `addSentence`: clean `c` against the proven mines and the cells proven
      safe or `revealed`, then settle it. */
  function Admit(t: Tally, revealed: set<nat>, c: Claim): Tally
  {
    Settle(t, Scrub(c, t.mines, t.safes + revealed))
  }

  /** `addSentence` on each of `cs` in order. */
  function AdmitAll(t: Tally, revealed: set<nat>, cs: seq<Claim>): Tally
    decreases |cs|
  {
    if cs == [] then t else AdmitAll(Admit(t, revealed, cs[0]), revealed, cs[1..])
  }

  /** The fold from the `k`-th claim on is one step, then the fold after it. */
  lemma AdmitAllAt(t: Tally, revealed: set<nat>, cs: seq<Claim>, k: nat)
    requires k < |cs|
    ensures AdmitAll(t, revealed, cs[k..]) == AdmitAll(Admit(t, revealed, cs[k]), revealed, cs[k + 1..])
  {
    assert cs[k..][1..] == cs[k + 1..];
  }

  /** The cases of `addSentence`, for the sentence `d` that cleaning `c`
      leaves: all mines, all safe, already known (dropped), or appended. */
  lemma AdmitCases(t: Tally, revealed: set<nat>, c: Claim)
    ensures var d := Scrub(c, t.mines, t.safes + revealed); var u := Admit(t, revealed, c);
      (|d.cells| == d.count ==> u == t.(mines := t.mines + d.cells, derived := true)) &&
      (|d.cells| != d.count && d.count == 0 ==> u == t.(safes := t.safes + d.cells, derived := true)) &&
      (|d.cells| != d.count && d.count != 0 ==>
        var unknown := forall k :: 0 <= k < |t.claims| ==> t.claims[k].cells != d.cells;
        u == if unknown then t.(claims := t.claims + [d], added := true) else t)
  {
    CoversSome(t.claims, Scrub(c, t.mines, t.safes + revealed).cells);
  }

  /** The flags only accumulate: a step from any flags is the step from none,
      with the old flags or-ed in. */
  lemma AdmitFlags(t: Tally, revealed: set<nat>, c: Claim)
    ensures var u := Admit(t.(derived := false, added := false), revealed, c);
      Admit(t, revealed, c) == u.(derived := t.derived || u.derived, added := t.added || u.added)
  {
  }

  /** Adding sentences only adds proven mines and safes; a flag still unset
      at the end was unset at the start, and then nothing of what it reports
      changed. */
  lemma {:induction false} AdmitAllFlags(t: Tally, revealed: set<nat>, cs: seq<Claim>)
    ensures var u := AdmitAll(t, revealed, cs);
      t.mines <= u.mines && t.safes <= u.safes &&
      (!u.derived ==> !t.derived && u.mines == t.mines && u.safes == t.safes) &&
      (!u.added ==> !t.added && u.claims == t.claims)
    decreases |cs|
  {
    if cs != [] {
      AdmitAllFlags(Admit(t, revealed, cs[0]), revealed, cs[1..]);
    }
  }

  /** An assignment agrees with a tally: a mine on every proven mine, none on
      the other cells proven safe or revealed, and every sentence holds. */
  ghost predicate Agrees(a: set<nat>, t: Tally, revealed: set<nat>)
  {
    t.mines <= a && a !! (t.safes + revealed - t.mines) && AllHold(a, t.claims)
  }

  /** Adding a sentence that holds keeps an assignment in agreement. */
  lemma AdmitSound(a: set<nat>, t: Tally, revealed: set<nat>, c: Claim)
    requires Agrees(a, t, revealed) && Holds(a, c)
    ensures Agrees(a, Admit(t, revealed, c), revealed)
  {
    var d := Scrub(c, t.mines, t.safes + revealed);
    ScrubSound(a, c, t.mines, t.safes + revealed);
    if |d.cells| == d.count {
      AllMines(d.cells);
    } else if d.count == 0 {
      NoMines(d.cells);
    }
  }

  /** Adding sentences that hold keeps an assignment in agreement. */
  lemma {:induction false} AdmitAllSound(a: set<nat>, t: Tally, revealed: set<nat>, cs: seq<Claim>)
    requires Agrees(a, t, revealed) && AllHold(a, cs)
    ensures Agrees(a, AdmitAll(t, revealed, cs), revealed)
    decreases |cs|
  {
    if cs != [] {
      AdmitSound(a, t, revealed, cs[0]);
      AdmitAllSound(a, Admit(t, revealed, cs[0]), revealed, cs[1..]);
    }
  }

  /** Adding sentences only adds proven mines and safes, keeps the sentences
      there were in front, and keeps cell sets pairwise different. */
  lemma {:induction false} AdmitAllGrows(t: Tally, revealed: set<nat>, cs: seq<Claim>)
    requires forall k, l :: 0 <= k < l < |t.claims| ==> t.claims[k].cells != t.claims[l].cells
    ensures var u := AdmitAll(t, revealed, cs);
      t.mines <= u.mines && t.safes <= u.safes && |t.claims| <= |u.claims| && u.claims[..|t.claims|] == t.claims &&
      forall k, l :: 0 <= k < l < |u.claims| ==> u.claims[k].cells != u.claims[l].cells
    decreases |cs|
  {
    if cs != [] {
      var t1 := Admit(t, revealed, cs[0]);
      CoversSome(t.claims, Scrub(cs[0], t.mines, t.safes + revealed).cells);
      AdmitAllGrows(t1, revealed, cs[1..]);
      assert t1.claims[..|t.claims|] == t.claims;
      var u := AdmitAll(t1, revealed, cs[1..]);
      assert u.claims[..|t.claims|] == u.claims[..|t1.claims|][..|t.claims|];
    }
  }

  /** One round of an update on values: add the waiting sentences `news`,
      then re-add the sentences known then to an empty knowledge base; and
      whether either step derived or appended something (the flags of the
      tally itself are cleared). */
  function Cycle(t: Tally, revealed: set<nat>, news: seq<Claim>): (Tally, bool)
  {
    var u := AdmitAll(Tally(t.claims, t.mines, t.safes, false, false), revealed, news);
    var v := AdmitAll(Tally([], u.mines, u.safes, false, false), revealed, u.claims);
    (Tally(v.claims, v.mines, v.safes, false, false), u.derived || u.added || v.derived)
  }

  /** The rounds of an update on values: while the last round derived or
      appended something and `fuel` remains, one `Cycle`, after which the
      sentences chained from the knowledge base wait; None where a chained
      sentence breaks the constructor's assertion. */
  ghost function Rounds(t: Tally, revealed: set<nat>, news: seq<Claim>, going: bool, fuel: nat): Option<Tally>
    decreases fuel
  {
    if !going || fuel == 0 then Some(t)
    else
      var (v, more) := Cycle(t, revealed, news);
      if Chainable(v.claims, |v.claims|) then Rounds(v, revealed, Deductions(v.claims, |v.claims|), more, fuel - 1)
      else None
  }

  /** A round that fuel allows: the rounds after it, or None. */
  lemma RoundsStep(t: Tally, revealed: set<nat>, news: seq<Claim>, fuel: nat, rest: nat)
    requires fuel == rest + 1
    ensures var c := Cycle(t, revealed, news);
      Rounds(t, revealed, news, true, fuel) ==
        if Chainable(c.0.claims, |c.0.claims|) then Rounds(c.0, revealed, Deductions(c.0.claims, |c.0.claims|), c.1, rest) else None
  {
    assert fuel - 1 == rest;
  }

  /** The rounds from `t` over `news` end in a state whose knowledge base is
      `claims`, whose proven mines are `marks` and whose safe cells are `known`. */
  ghost predicate Reaches(t: Tally, revealed: set<nat>, news: seq<Claim>, fuel: nat, claims: seq<Claim>, marks: set<nat>, known: set<nat>)
  {
    var s := Rounds(t, revealed, news, true, fuel);
    s.Some? && s.value.claims == claims && s.value.mines == marks && s.value.safes == known
  }

  /** The rounds never fail when an assignment agrees with the state and
      satisfies the waiting sentences, and it still agrees with the result. */
  lemma {:induction false} RoundsSound(a: set<nat>, t: Tally, revealed: set<nat>, news: seq<Claim>, going: bool, fuel: nat)
    requires Agrees(a, t, revealed) && AllHold(a, news)
    ensures Rounds(t, revealed, news, going, fuel).Some? && Agrees(a, Rounds(t, revealed, news, going, fuel).value, revealed)
    decreases fuel
  {
    if going && fuel > 0 {
      var c := Cycle(t, revealed, news);
      CycleSound(a, t, revealed, news);
      RoundsSound(a, c.0, revealed, Deductions(c.0.claims, |c.0.claims|), c.1, fuel - 1);
    }
  }

  /** A round keeps an assignment in agreement and so never breaks the
      constructor's assertion when it chains. */
  lemma CycleSound(a: set<nat>, t: Tally, revealed: set<nat>, news: seq<Claim>)
    requires Agrees(a, t, revealed) && AllHold(a, news)
    ensures var v := Cycle(t, revealed, news).0;
      Agrees(a, v, revealed) && Chainable(v.claims, |v.claims|) && AllHold(a, Deductions(v.claims, |v.claims|))
  {
    var t0 := Tally(t.claims, t.mines, t.safes, false, false);
    AdmitAllSound(a, t0, revealed, news);
    var u := AdmitAll(t0, revealed, news);
    var e := Tally([], u.mines, u.safes, false, false);
    AdmitAllSound(a, e, revealed, u.claims);
    var v := AdmitAll(e, revealed, u.claims);
    ChainingSound(a, v.claims);
  }

  /** What the solver knows at one moment: the board, the proven mines
      (`marks`) and the cells proven safe or revealed (`known`). */
  datatype View = View(cells: seq<seq<int>>, width: nat, height: nat, marks: set<nat>, known: set<nat>)

  /** The view's board and `oldCells` both have the view's dimensions. */
  predicate Fits(v: View, oldCells: seq<seq<int>>)
  {
    v.width > 0 && Shaped(v.cells, v.width, v.height) && Shaped(oldCells, v.width, v.height)
  }

  /** The sentence of the cell at row `i`, column `j` in view `v`. */
  function ClaimAt(v: View, i: int, j: int): Claim
    requires v.width > 0 && Shaped(v.cells, v.width, v.height) && 0 <= i < v.height && 0 <= j < v.width
  {
    var around := Neighbours(v.width, v.height, i, j);
    Claim(around - v.marks - v.known, v.cells[i][j] - |around * v.marks|)
  }

  /** Cell (i, j) was covered on `oldCells` and is revealed now. */
  predicate NewlyRevealed(v: View, oldCells: seq<seq<int>>, i: int, j: int)
    requires Fits(v, oldCells) && 0 <= i < v.height && 0 <= j < v.width
  {
    oldCells[i][j] == Covered && v.cells[i][j] != Covered
  }

  /** Every cell revealed on `oldCells` that comes before row `i`, column
      `j` shows the same value now. */
  ghost predicate UnchangedBefore(v: View, oldCells: seq<seq<int>>, i: int, j: int)
    requires Fits(v, oldCells)
  {
    forall i', j' :: 0 <= i' < v.height && 0 <= j' < v.width && RowMajorBefore(i', j', i, j) ==>
      (oldCells[i'][j'] != Covered ==> oldCells[i'][j'] == v.cells[i'][j'])
  }

  /** Every cell newly revealed before row `i`, column `j` has a well-formed sentence. */
  ghost predicate WellFormedBefore(v: View, oldCells: seq<seq<int>>, i: int, j: int)
    requires Fits(v, oldCells)
  {
    forall i', j' :: 0 <= i' < v.height && 0 <= j' < v.width && RowMajorBefore(i', j', i, j) ==>
      (NewlyRevealed(v, oldCells, i', j') ==> WellFormed(ClaimAt(v, i', j')))
  }

  /** The sentence of every cell newly revealed before row `i`, column `j`
      that is over some cells is in `out`. */
  ghost predicate CollectedBefore(v: View, oldCells: seq<seq<int>>, out: seq<Claim>, i: int, j: int)
    requires Fits(v, oldCells)
  {
    forall i', j' :: 0 <= i' < v.height && 0 <= j' < v.width && RowMajorBefore(i', j', i, j) ==>
      ((NewlyRevealed(v, oldCells, i', j') && ClaimAt(v, i', j').cells != {}) ==> ClaimAt(v, i', j') in out)
  }

  /** `c` is the sentence of some newly revealed cell, over some cells. */
  ghost predicate FromNewCell(v: View, oldCells: seq<seq<int>>, c: Claim)
    requires Fits(v, oldCells)
  {
    c.cells != {} &&
    exists i, j :: 0 <= i < v.height && 0 <= j < v.width && NewlyRevealed(v, oldCells, i, j) && ClaimAt(v, i, j) == c
  }

  ghost predicate AllFromNewCells(v: View, oldCells: seq<seq<int>>, out: seq<Claim>)
    requires Fits(v, oldCells)
  {
    forall c :: c in out ==> FromNewCell(v, oldCells, c)
  }

  /** Every revealed cell of `oldCells` is unchanged in the view and every
      newly revealed cell has a well-formed sentence. */
  ghost predicate ScanPasses(v: View, oldCells: seq<seq<int>>)
    requires Fits(v, oldCells)
  {
    UnchangedBefore(v, oldCells, v.height, 0) && WellFormedBefore(v, oldCells, v.height, 0)
  }

  /** `out` holds the sentence of every newly revealed cell that has cells
      left, and nothing else. */
  ghost predicate FirstBatch(v: View, oldCells: seq<seq<int>>, out: seq<Claim>)
    requires Fits(v, oldCells)
  {
    CollectedBefore(v, oldCells, out, v.height, 0) && AllFromNewCells(v, oldCells, out)
  }

  /** The concatenation, in row-major order, of `f(i', j')` over the cells
      (i', j') of a `w` by `h` board from row `i`, column `j` on. */
  ghost function RowMajor(f: (int, int) -> seq<Claim>, w: int, h: int, i: int, j: int): seq<Claim>
    decreases h - i, w - j
  {
    if i >= h then []
    else if j >= w then RowMajor(f, w, h, i + 1, 0)
    else f(i, j) + RowMajor(f, w, h, i, j + 1)
  }

  /** What a cell contributes is in the concatenation from any cell before it. */
  lemma {:induction false} RowMajorHas(f: (int, int) -> seq<Claim>, w: int, h: int, i: int, j: int, i': int, j': int, c: Claim)
    requires j <= w && i' < h && 0 <= j' < w && !RowMajorBefore(i', j', i, j) && c in f(i', j')
    ensures c in RowMajor(f, w, h, i, j)
    decreases h - i, w - j
  {
    assert i < h;
    RowMajorBack(f, w, h, i, j, c);
    if j >= w {
      RowMajorHas(f, w, h, i + 1, 0, i', j', c);
    } else if i' != i || j' != j {
      RowMajorHas(f, w, h, i, j + 1, i', j', c);
    }
  }

  /** Everything in the concatenation comes from some cell of the board. */
  lemma {:induction false} RowMajorFrom(f: (int, int) -> seq<Claim>, w: int, h: int, i: int, j: int, c: Claim)
    returns (i': int, j': int)
    requires c in RowMajor(f, w, h, i, j)
    ensures i' < h && j' < w && c in f(i', j')
    decreases h - i, w - j
  {
    RowMajorStep(f, w, h, i, j, c);
    if j >= w {
      i', j' := RowMajorFrom(f, w, h, i + 1, 0, c);
    } else if c in f(i, j) {
      i', j' := i, j;
    } else {
      i', j' := RowMajorFrom(f, w, h, i, j + 1, c);
    }
  }

  /** One step of the concatenation: what it holds from (i, j) on is held by
      the next row, or by the cell itself or the rest of its row. */
  lemma RowMajorStep(f: (int, int) -> seq<Claim>, w: int, h: int, i: int, j: int, c: Claim)
    requires c in RowMajor(f, w, h, i, j)
    ensures i < h
    ensures j >= w ==> c in RowMajor(f, w, h, i + 1, 0)
    ensures j < w ==> c in f(i, j) || c in RowMajor(f, w, h, i, j + 1)
  {
  }

  /** One step back: what the next row holds, or the cell itself or the rest
      of its row, the concatenation from (i, j) holds. */
  lemma RowMajorBack(f: (int, int) -> seq<Claim>, w: int, h: int, i: int, j: int, c: Claim)
    requires i < h
    ensures j >= w && c in RowMajor(f, w, h, i + 1, 0) ==> c in RowMajor(f, w, h, i, j)
    ensures j < w && (c in f(i, j) || c in RowMajor(f, w, h, i, j + 1)) ==> c in RowMajor(f, w, h, i, j)
  {
  }

  /** What cell (i, j) contributes to the first batch: its sentence when it
      is newly revealed and the sentence is over some cells. */
  ghost function CellClaims(v: View, oldCells: seq<seq<int>>): (int, int) -> seq<Claim>
    requires Fits(v, oldCells)
  {
    (i: int, j: int) =>
      if 0 <= i < v.height && 0 <= j < v.width && NewlyRevealed(v, oldCells, i, j) && ClaimAt(v, i, j).cells != {}
      then [ClaimAt(v, i, j)] else []
  }

  /** The sentences of the cells from row `i`, column `j` on, in row-major
      order: one for each newly revealed cell whose sentence is over some
      cells. */
  ghost function NewClaims(v: View, oldCells: seq<seq<int>>, i: nat, j: nat): seq<Claim>
    requires Fits(v, oldCells)
  {
    RowMajor(CellClaims(v, oldCells), v.width, v.height, i, j)
  }

  /** A sentence in the fold from (i, j) is that of a newly revealed cell. */
  lemma NewClaimsFromNew(v: View, oldCells: seq<seq<int>>, i: nat, j: nat, c: Claim)
    requires Fits(v, oldCells) && c in NewClaims(v, oldCells, i, j)
    ensures FromNewCell(v, oldCells, c)
  {
    var i', j' := RowMajorFrom(CellClaims(v, oldCells), v.width, v.height, i, j, c);
    assert c == ClaimAt(v, i', j') && NewlyRevealed(v, oldCells, i', j');
  }

  /** The fold from (i, j) holds the sentence of each newly revealed cell
      (i', j') at or after (i, j) that has cells left. */
  lemma NewClaimsFromAll(v: View, oldCells: seq<seq<int>>, i: nat, j: nat, i': nat, j': nat)
    requires Fits(v, oldCells) && j <= v.width && i' < v.height && j' < v.width && !RowMajorBefore(i', j', i, j)
    requires NewlyRevealed(v, oldCells, i', j') && ClaimAt(v, i', j').cells != {}
    ensures ClaimAt(v, i', j') in NewClaims(v, oldCells, i, j)
  {
    assert ClaimAt(v, i', j') in CellClaims(v, oldCells)(i', j');
    RowMajorHas(CellClaims(v, oldCells), v.width, v.height, i, j, i', j', ClaimAt(v, i', j'));
  }

  /** Every sentence of the whole fold is that of a newly revealed cell. */
  lemma AllNewClaimsNew(v: View, oldCells: seq<seq<int>>)
    requires Fits(v, oldCells)
    ensures AllFromNewCells(v, oldCells, NewClaims(v, oldCells, 0, 0))
  {
    forall c | c in NewClaims(v, oldCells, 0, 0) ensures FromNewCell(v, oldCells, c) {
      NewClaimsFromNew(v, oldCells, 0, 0, c);
    }
  }

  /** The row-major fold is a first batch: membership is exactly that of the
      newly revealed cells' sentences. */
  lemma NewClaimsBatch(v: View, oldCells: seq<seq<int>>)
    requires Fits(v, oldCells)
    ensures FirstBatch(v, oldCells, NewClaims(v, oldCells, 0, 0))
  {
    AllNewClaimsNew(v, oldCells);
    forall i', j' | 0 <= i' < v.height && 0 <= j' < v.width && RowMajorBefore(i', j', v.height, 0) &&
      NewlyRevealed(v, oldCells, i', j') && ClaimAt(v, i', j').cells != {}
      ensures ClaimAt(v, i', j') in NewClaims(v, oldCells, 0, 0)
    {
      NewClaimsFromAll(v, oldCells, 0, 0, i', j');
    }
  }

  /** The revealed cells of the board `g`. */
  function RevealedOn(g: seq<seq<int>>, w: nat, h: nat): set<nat>
    requires w > 0 && Shaped(g, w, h)
  {
    set n: nat | n < w * h && At(g, w, h, n) != Covered
  }

  /** Every revealed cell of the board `g` shows how many cells of `a` are
      around it. */
  ghost predicate CountsTrue(a: set<nat>, g: seq<seq<int>>, w: nat, h: nat)
    requires w > 0 && Shaped(g, w, h)
  {
    forall i, j :: 0 <= i < h && 0 <= j < w && g[i][j] != Covered ==> |a * Neighbours(w, h, i, j)| == g[i][j]
  }

  /** For an assignment with a mine on every proven mine of the view and none
      on its other known safe cells, the sentence of a cell whose number is
      true of the assignment is well formed and holds. */
  lemma ClaimAtSound(a: set<nat>, v: View, i: int, j: int)
    requires v.width > 0 && Shaped(v.cells, v.width, v.height) && 0 <= i < v.height && 0 <= j < v.width
    requires v.marks <= a && a !! (v.known - v.marks)
    requires |a * Neighbours(v.width, v.height, i, j)| == v.cells[i][j]
    ensures WellFormed(ClaimAt(v, i, j)) && Holds(a, ClaimAt(v, i, j))
  {
    ScrubSound(a, Claim(Neighbours(v.width, v.height, i, j), v.cells[i][j]), v.marks, v.known);
    CountAtMostSize(a, ClaimAt(v, i, j).cells);
  }

  /** On a board whose numbers are true of `a`, for an `a` that agrees with
      the view's proven mines and known safe cells, every newly revealed cell
      has a well-formed sentence and every sentence of the first batch holds. */
  lemma NewClaimsSound(a: set<nat>, v: View, oldCells: seq<seq<int>>)
    requires Fits(v, oldCells) && v.marks <= a && a !! (v.known - v.marks)
    requires CountsTrue(a, v.cells, v.width, v.height)
    ensures WellFormedBefore(v, oldCells, v.height, 0) && AllHold(a, NewClaims(v, oldCells, 0, 0))
  {
    forall i, j | 0 <= i < v.height && 0 <= j < v.width && NewlyRevealed(v, oldCells, i, j)
      ensures WellFormed(ClaimAt(v, i, j)) && Holds(a, ClaimAt(v, i, j))
    {
      ClaimAtSound(a, v, i, j);
    }
    forall c | c in NewClaims(v, oldCells, 0, 0) ensures Holds(a, c) {
      NewClaimsFromNew(v, oldCells, 0, 0, c);
      var i, j :| 0 <= i < v.height && 0 <= j < v.width && NewlyRevealed(v, oldCells, i, j) && ClaimAt(v, i, j) == c;
      ClaimAtSound(a, v, i, j);
    }
  }

  /** Scanning cell (i, j) extends what is known about the cells before it. */
  lemma ScanStep(v: View, oldCells: seq<seq<int>>, i: int, j: int)
    requires Fits(v, oldCells) && 0 <= i < v.height && 0 <= j < v.width
    requires UnchangedBefore(v, oldCells, i, j) && WellFormedBefore(v, oldCells, i, j)
    requires oldCells[i][j] != Covered ==> oldCells[i][j] == v.cells[i][j]
    requires NewlyRevealed(v, oldCells, i, j) ==> WellFormed(ClaimAt(v, i, j))
    ensures UnchangedBefore(v, oldCells, i, j + 1) && WellFormedBefore(v, oldCells, i, j + 1)
  {
  }

  /** The scan has passed every cell before row `i`, column `j`, and the
      sentences `out` it collected are the fold up to there. */
  ghost predicate ScanReached(v: View, oldCells: seq<seq<int>>, out: seq<Claim>, i: nat, j: nat)
    requires Fits(v, oldCells)
  {
    UnchangedBefore(v, oldCells, i, j) && WellFormedBefore(v, oldCells, i, j) &&
    out + NewClaims(v, oldCells, i, j) == NewClaims(v, oldCells, 0, 0)
  }

  /** One cell of the scan: the scan reaches past cell (i, j), with the
      cell's sentence appended when `added`. */
  lemma CellStep(v: View, oldCells: seq<seq<int>>, out: seq<Claim>, i: nat, j: nat, added: bool)
    requires Fits(v, oldCells) && i < v.height && j < v.width
    requires ScanReached(v, oldCells, out, i, j)
    requires oldCells[i][j] != Covered ==> oldCells[i][j] == v.cells[i][j]
    requires NewlyRevealed(v, oldCells, i, j) ==> WellFormed(ClaimAt(v, i, j))
    requires added <==> NewlyRevealed(v, oldCells, i, j) && ClaimAt(v, i, j).cells != {}
    ensures ScanReached(v, oldCells, if added then out + [ClaimAt(v, i, j)] else out, i, j + 1)
  {
    ScanStep(v, oldCells, i, j);
    var rest := NewClaims(v, oldCells, i, j + 1);
    if added {
      assert NewClaims(v, oldCells, i, j) == [ClaimAt(v, i, j)] + rest;
      assert out + [ClaimAt(v, i, j)] + rest == out + ([ClaimAt(v, i, j)] + rest);
    } else {
      assert NewClaims(v, oldCells, i, j) == [] + rest;
      assert [] + rest == rest;
    }
  }

  /** Past the last cell of a row, the scan is at the start of the next. */
  lemma ScanNextRow(v: View, oldCells: seq<seq<int>>, out: seq<Claim>, i: nat)
    requires Fits(v, oldCells) && i < v.height
    requires ScanReached(v, oldCells, out, i, v.width)
    ensures ScanReached(v, oldCells, out, i + 1, 0)
  {
  }

  /** The scan starts with nothing collected. */
  lemma ScanStart(v: View, oldCells: seq<seq<int>>)
    requires Fits(v, oldCells)
    ensures ScanReached(v, oldCells, [], 0, 0)
  {
    assert [] + NewClaims(v, oldCells, 0, 0) == NewClaims(v, oldCells, 0, 0);
  }

  /** At the end of the scan the collected sentences are the whole fold,
      and they lie on the board. */
  lemma ScanDone(v: View, oldCells: seq<seq<int>>, out: seq<Claim>)
    requires Fits(v, oldCells) && ScanReached(v, oldCells, out, v.height, 0)
    ensures ScanPasses(v, oldCells) && out == NewClaims(v, oldCells, 0, 0)
    ensures forall c :: c in out ==> forall n :: n in c.cells ==> n < v.width * v.height
  {
    assert NewClaims(v, oldCells, v.height, 0) == [];
    assert out + [] == out;
    AllNewClaimsNew(v, oldCells);
    AllWithin(v, oldCells, out);
  }

  /** A cell that fails the scan falsifies the success condition. */
  lemma ScanFailure(v: View, oldCells: seq<seq<int>>, i: int, j: int)
    requires Fits(v, oldCells) && 0 <= i < v.height && 0 <= j < v.width
    requires (oldCells[i][j] != Covered && oldCells[i][j] != v.cells[i][j]) ||
      (NewlyRevealed(v, oldCells, i, j) && !WellFormed(ClaimAt(v, i, j)))
    ensures !(UnchangedBefore(v, oldCells, v.height, 0) && WellFormedBefore(v, oldCells, v.height, 0))
  {
  }

  /** The sentences that come from new cells lie on the board. */
  lemma AllWithin(v: View, oldCells: seq<seq<int>>, claims: seq<Claim>)
    requires Fits(v, oldCells) && AllFromNewCells(v, oldCells, claims)
    ensures forall c :: c in claims ==> forall n :: n in c.cells ==> n < v.width * v.height
  {
  }

  /** Object `k` of `out` holds the sentence `claims[k]`. */
  predicate Represents(out: seq<Sentence>, claims: seq<Claim>)
    reads out
  {
    |out| == |claims| && forall k :: 0 <= k < |out| ==> out[k].Value() == claims[k]
  }

  lemma RepresentsAppend(out: seq<Sentence>, claims: seq<Claim>, x: Sentence)
    requires Distinct(out) && Represents(out, claims) && x !in out
    ensures Distinct(out + [x]) && Represents(out + [x], claims + [x.Value()])
  {
  }

  /** Objects that hold sentences over cells below `size` are over such cells. */
  lemma RepresentsBelow(out: seq<Sentence>, claims: seq<Claim>, size: int)
    requires Represents(out, claims)
    requires forall c :: c in claims ==> forall n :: n in c.cells ==> n < size
    ensures forall x :: x in out ==> forall n :: n in x.cells ==> n < size
  {
    forall x | x in out ensures forall n :: n in x.cells ==> n < size {
      var k :| 0 <= k < |out| && out[k] == x;
      assert x.Value() == claims[k];
    }
  }

  lemma RepresentsValues(out: seq<Sentence>, claims: seq<Claim>)
    requires Represents(out, claims)
    ensures Values(out) == claims
  {
  }

  class Sentence {
    var cells: set<nat>
    var count: int

    /** The source's constructor asserts `0 <= count <= |cells|`; callers here
        check it first and fail with `Inconsistent` instead. */
    constructor (cells: set<nat>, count: int)
      requires 0 <= count <= |cells|
      ensures this.cells == cells && this.count == count
    {
      this.cells := cells;
      this.count := count;
    }

    function Value(): Claim
      reads this
    {
      Claim(cells, count)
    }

    /** Whether every member of `subset` is in `superset`. */
    static method IsSubset(subset: set<nat>, superset: set<nat>) returns (r: bool)
      ensures r <==> subset <= superset
    {
      var todo := subset;
      while todo != {}
        invariant todo <= subset
        invariant subset - todo <= superset
        decreases todo
      {
        var n :| n in todo;
        if n !in superset {
          return false;
        }
        todo := todo - {n};
      }
      return true;
    }

    /** The members of `a` that are not in `b`. */
    static method Difference(a: set<nat>, b: set<nat>) returns (r: set<nat>)
      ensures r == a - b
    {
      r := {};
      var todo := a;
      while todo != {}
        invariant todo <= a
        invariant r == (a - todo) - b
        decreases todo
      {
        var n :| n in todo;
        if n !in b {
          r := r + {n};
        }
        todo := todo - {n};
      }
    }

    /** A new sentence derived from this one and `other` when one's cells are
        a subset of the other's; failure where the new sentence's constructor
        would fail its assertion. */
    method Deduce(other: Sentence) returns (r: Result<Option<Sentence>, Error>)
      ensures r.Failure? <==> Deduction(Value(), other.Value()).Some? && !WellFormed(Deduction(Value(), other.Value()).value)
      ensures r.Success? ==> (r.value.None? <==> Deduction(Value(), other.Value()).None?)
      ensures r.Success? && r.value.Some? ==>
        fresh(r.value.value) && r.value.value.Value() == Deduction(Value(), other.Value()).value
    {
      var thisInOther := IsSubset(cells, other.cells);
      if thisInOther {
        var rest := Difference(other.cells, cells);
        if !(0 <= other.count - count <= |rest|) {
          return Failure(Inconsistent);
        }
        var s := new Sentence(rest, other.count - count);
        return Success(Some(s));
      }
      var otherInThis := IsSubset(other.cells, cells);
      if otherInThis {
        var rest := Difference(cells, other.cells);
        if !(0 <= count - other.count <= |rest|) {
          return Failure(Inconsistent);
        }
        var s := new Sentence(rest, count - other.count);
        return Success(Some(s));
      }
      return Success(None);
    }

    /** Removes the proven mines (each lowering the count) and then the cells
        the solver knows to be safe. */
    method Clean(solver: SimpleSolver)
      requires solver.Ready() && solver.Within(cells)
      modifies this
      ensures cells == old(cells) - solver.MineCells() - solver.SafeCells()
      ensures count == old(count) - |old(cells) * solver.MineCells()|
      ensures Value() == solver.Cleaned(old(Value()))
    {
      ghost var mines, safe := solver.MineCells(), solver.SafeCells();
      ghost var orig, origCount := cells, count;
      var todo := cells;
      ghost var marked: set<nat> := {};
      while todo != {}
        invariant todo <= orig
        invariant forall n :: n in cells <==> n in orig && (n in todo || (n !in mines && n !in safe))
        invariant forall n :: n in marked <==> n in orig && n !in todo && n in mines
        invariant count == origCount - |marked|
        decreases todo
      {
        var cell :| cell in todo;
        solver.MineCellAt(cell);
        solver.SafeCellAt(cell);
        var isMine := solver.IsSureMine(cell);
        var isSafe := solver.IsSureSafe(cell);
        if isMine {
          marked := marked + {cell};
          cells := cells - {cell};
          count := count - 1;
        } else if isSafe {
          cells := cells - {cell};
        }
        todo := todo - {cell};
      }
      assert marked == orig * mines;
    }

    /** All cells are mines when the count equals the number of cells. */
    function GetSureMines(): (r: Option<set<nat>>)
      reads this
      ensures r.Some? <==> |cells| == count
      ensures r.Some? ==> r.value == cells && forall a :: Holds(a, Value()) ==> r.value <= a
    {
      AllMines(cells);
      if |cells| == count then Some(cells) else None
    }

    /** All cells are safe when the count is zero. */
    function GetSureSafes(): (r: Option<set<nat>>)
      reads this
      ensures r.Some? <==> count == 0
      ensures r.Some? ==> r.value == cells && forall a :: Holds(a, Value()) ==> r.value !! a
    {
      NoMines(cells);
      if count == 0 then Some(cells) else None
    }

    /** Two sentences are equal when they are over the same cells; the counts
        are not compared. */
    method Equals(other: Sentence) returns (r: bool)
      ensures r <==> cells == other.cells
    {
      var forward := IsSubset(cells, other.cells);
      var backward := IsSubset(other.cells, cells);
      r := forward && backward;
    }

    /** A sentence over no cells: whether it holds does not depend on where
        the mines are. */
    function IsTrivial(): (r: bool)
      reads this
      ensures r <==> cells == {}
      ensures r ==> forall a :: Holds(a, Value()) <==> count == 0
    {
      cells == {}
    }
  }

  class SimpleSolver {
    var cells: seq<seq<int>>
    const width: nat
    const height: nat
    const mines: array2<bool>
    var safes: set<nat>
    var knowledge: seq<Sentence>

    /** The dimensions agree and the proven safes lie on the board. */
    ghost predicate Ready()
      reads this`cells, this`safes
    {
      && width > 0 && height > 0
      && mines.Length0 == height && mines.Length1 == width
      && Shaped(cells, width, height)
      && Within(safes)
    }

    /** Ready, and every sentence is over cells of the board, no two over the
        same cells. */
    ghost predicate Valid()
      reads this`cells, this`safes, this`knowledge, knowledge
    {
      && Ready()
      && (forall x :: x in knowledge ==> Within(x.cells))
      && forall a, b :: 0 <= a < b < |knowledge| ==> knowledge[a].cells != knowledge[b].cells
    }

    constructor (width: nat, height: nat)
      requires width > 0 && height > 0
      ensures Valid() && fresh(mines)
      ensures this.width == width && this.height == height
      ensures forall i, j :: 0 <= i < height && 0 <= j < width ==> cells[i][j] == Covered && !mines[i, j]
      ensures knowledge == [] && safes == {}
    {
      this.width := width;
      this.height := height;
      cells := seq(height, _ => seq(width, _ => Covered));
      mines := new bool[height, width]((_, _) => false);
      safes := {};
      knowledge := [];
    }

    /** Every member of `s` is a cell of the board. */
    predicate Within(s: set<nat>)
    {
      forall n :: n in s ==> n < width * height
    }

    /** Whether cell `cell` is a proven mine. */
    function IsSureMine(cell: nat): bool
      reads this`cells, this`safes, mines
      requires Ready() && cell < width * height
    {
      MineAt(mines, cell)
    }

    /** Whether cell `cell` is proven safe or already revealed. */
    function IsSureSafe(cell: nat): bool
      reads this`cells, this`safes
      requires Ready() && cell < width * height
    {
      cell in safes || At(cells, width, height, cell) != Covered
    }

    function MineCells(): set<nat>
      reads mines
      requires mines.Length1 > 0
    {
      MineSet(mines)
    }

    function SafeCells(): (r: set<nat>)
      reads this`cells, this`safes
      requires Ready()
      ensures Within(r)
    {
      set n: nat | n < width * height && IsSureSafe(n)
    }

    lemma MineCellAt(cell: nat)
      requires Ready()
      ensures cell < width * height ==> (cell in MineCells() <==> IsSureMine(cell))
    {
    }

    lemma SafeCellAt(cell: nat)
      requires Ready()
      ensures cell < width * height ==> (cell in SafeCells() <==> IsSureSafe(cell))
    {
    }

    /** The revealed cells of the board. */
    function Revealed(): (r: set<nat>)
      reads this`cells
      requires width > 0 && Shaped(cells, width, height)
      ensures Within(r)
    {
      set n: nat | n < width * height && At(cells, width, height, n) != Covered
    }

    /** The cells known safe are the proven safes and the revealed cells. */
    lemma SafeCellsSplit()
      requires Ready()
      ensures SafeCells() == safes + Revealed()
    {
    }

    /** A sentence after `Clean` against this state. */
    function Cleaned(c: Claim): Claim
      reads this`cells, this`safes, mines
      requires Ready()
    {
      Scrub(c, MineCells(), SafeCells())
    }

    /** An assignment agrees with what is proven: every marked mine holds a
        mine, and no cell known safe (and not marked) holds one. */
    ghost predicate Consistent(a: set<nat>)
      reads this`cells, this`safes, mines
      requires Ready()
    {
      MineCells() <= a && a !! (SafeCells() - MineCells())
    }

    /** Cleaning is sound, and leaves no proven mine or safe behind. */
    lemma CleanedSound(a: set<nat>, c: Claim)
      requires Ready() && Consistent(a) && Holds(a, c)
      ensures Holds(a, Cleaned(c))
      ensures Cleaned(c).cells !! MineCells() && Cleaned(c).cells !! SafeCells()
    {
      ScrubSound(a, c, MineCells(), SafeCells());
    }

    /** The assignment satisfies every sentence and agrees with the proven facts. */
    ghost predicate Models(a: set<nat>)
      reads this`cells, this`safes, this`knowledge, mines, knowledge
      requires Ready()
    {
      Consistent(a) && forall x :: x in knowledge ==> Holds(a, x.Value())
    }

    // ------------------------------------------------------------- sentences

    /** What the solver knows: the board, the proven mines and the cells known safe. */
    function Snapshot(): (v: View)
      reads this`cells, this`safes, mines
      requires Ready()
      ensures v.width == width && v.height == height && v.cells == cells && Fits(v, cells)
    {
      View(cells, width, height, MineCells(), SafeCells())
    }

    /** The sentence of a revealed cell: its number, less the proven mines
        around it, over the neighbours neither proven mine nor known safe. */
    function CellClaim(i: int, j: int): Claim
      reads this`cells, this`safes, mines
      requires Ready() && 0 <= i < height && 0 <= j < width
    {
      ClaimAt(Snapshot(), i, j)
    }

    /** One cell of the block scan in `GetCellSentence`. */
    method ScanNeighbour(i: int, j: int, ii: int, jj: int, count0: int, positions0: set<nat>, ghost seen0: set<nat>)
      returns (count: int, positions: set<nat>, ghost seen: set<nat>)
      requires Ready() && 0 <= i < height && 0 <= j < width && i - 1 <= ii <= i + 1 && j - 1 <= jj <= j + 1
      requires seen0 == NeighboursBefore(width, height, i, j, ii, jj)
      requires positions0 == seen0 - MineCells() - SafeCells()
      requires count0 == cells[i][j] - |seen0 * MineCells()|
      ensures seen == NeighboursBefore(width, height, i, j, ii, jj + 1)
      ensures positions == seen - MineCells() - SafeCells()
      ensures count == cells[i][j] - |seen * MineCells()|
    {
      NeighbourStep(width, height, i, j, ii, jj);
      count, positions, seen := count0, positions0, seen0;
      if IsNeighbour(width, height, i, j, ii, jj) {
        CoordToNumInGrid(width, height, Coordinate(jj, ii));
        var num: nat := CoordToNum(width, Coordinate(jj, ii));
        MineCellAt(num);
        SafeCellAt(num);
        AddNeighbour(seen, MineCells(), SafeCells(), num);
        seen := seen + {num};
        if IsSureMine(num) {
          count := count - 1;
        } else if !IsSureSafe(num) {
          positions := positions + {num};
        }
      }
    }

    /** One row of the block scan in `GetCellSentence`. */
    method ScanNeighbourRow(i: int, j: int, ii: int, count0: int, positions0: set<nat>, ghost seen0: set<nat>)
      returns (count: int, positions: set<nat>, ghost seen: set<nat>)
      requires Ready() && 0 <= i < height && 0 <= j < width && i - 1 <= ii <= i + 1
      requires seen0 == NeighboursBefore(width, height, i, j, ii, j - 1)
      requires positions0 == seen0 - MineCells() - SafeCells()
      requires count0 == cells[i][j] - |seen0 * MineCells()|
      ensures seen == NeighboursBefore(width, height, i, j, ii + 1, j - 1)
      ensures positions == seen - MineCells() - SafeCells()
      ensures count == cells[i][j] - |seen * MineCells()|
    {
      count, positions, seen := count0, positions0, seen0;
      var jj := j - 1;
      while jj <= j + 1
        invariant j - 1 <= jj <= j + 2
        invariant seen == NeighboursBefore(width, height, i, j, ii, jj)
        invariant positions == seen - MineCells() - SafeCells()
        invariant count == cells[i][j] - |seen * MineCells()|
      {
        count, positions, seen := ScanNeighbour(i, j, ii, jj, count, positions, seen);
        jj := jj + 1;
      }
      NeighbourRow(width, height, i, j, ii);
    }

    /** The cells and count of the sentence of row `i`, column `j`, by a
        row-major scan of the block around it. */
    method ScanNeighbours(i: int, j: int) returns (positions: set<nat>, count: int)
      requires Ready() && 0 <= i < height && 0 <= j < width
      ensures Claim(positions, count) == CellClaim(i, j)
    {
      count := cells[i][j];
      positions := {};
      ghost var seen: set<nat> := {};
      NeighboursAll(width, height, i, j);
      var ii := i - 1;
      while ii <= i + 1
        invariant i - 1 <= ii <= i + 2
        invariant seen == NeighboursBefore(width, height, i, j, ii, j - 1)
        invariant positions == seen - MineCells() - SafeCells()
        invariant count == cells[i][j] - |seen * MineCells()|
      {
        count, positions, seen := ScanNeighbourRow(i, j, ii, count, positions, seen);
        ii := ii + 1;
      }
      assert seen == Neighbours(width, height, i, j);
      assert Snapshot() == View(cells, width, height, MineCells(), SafeCells());
    }

    /** The sentence on the neighbours of row `i`, column `j`; failure where
        the constructor's assertion would fail. */
    method GetCellSentence(i: int, j: int) returns (r: Result<Sentence, Error>)
      requires Ready() && 0 <= i < height && 0 <= j < width
      ensures r.Success? <==> WellFormed(CellClaim(i, j))
      ensures r.Success? ==> fresh(r.value) && r.value.Value() == CellClaim(i, j)
    {
      var positions, count := ScanNeighbours(i, j);
      if count < 0 || count > |positions| {
        return Failure(Inconsistent);
      }
      ghost var claim := CellClaim(i, j);
      var s := new Sentence(positions, count);
      assert CellClaim(i, j) == claim;
      return Success(s);
    }

    /**
     * New sentence objects for the cells revealed since `oldCells`, in
     * row-major order, those over no cells left out; a failure when a
     * revealed cell changed or a new cell's sentence is not well formed.
     */
    method CreateNewSentences(oldCells: seq<seq<int>>) returns (r: Result<seq<Sentence>, Error>)
      requires Ready() && Shaped(oldCells, width, height)
      ensures r.Success? <==> ScanPasses(Snapshot(), oldCells)
      ensures r.Success? ==> Values(r.value) == NewClaims(Snapshot(), oldCells, 0, 0)
      ensures r.Success? ==> Fresh(r.value) && Distinct(r.value) && forall x :: x in r.value ==> Within(x.cells)
    {
      ghost var v := Snapshot();
      var out: seq<Sentence> := [];
      ghost var claims: seq<Claim> := [];
      var i := 0;
      ScanStart(v, oldCells);
      while i < height
        invariant 0 <= i <= height
        invariant Snapshot() == v && ScanReached(v, oldCells, claims, i, 0)
        invariant Fresh(out) && Distinct(out) && Represents(out, claims)
      {
        var row;
        row, claims := RowSentences(oldCells, i, v, out, claims);
        if row.Failure? {
          assert Snapshot() == v && !ScanPasses(v, oldCells);
          return Failure(row.error);
        }
        out := row.value;
        i := i + 1;
      }
      RepresentsValues(out, claims);
      ScanDone(v, oldCells, claims);
      RepresentsBelow(out, claims, width * height);
      assert Snapshot() == v;
      return Success(out);
    }

    /** One row of `CreateNewSentences`: the sentences of row `i` appended to `out0`. */
    method RowSentences(oldCells: seq<seq<int>>, i: nat, ghost v: View, out0: seq<Sentence>, ghost claims0: seq<Claim>)
      returns (r: Result<seq<Sentence>, Error>, ghost claims: seq<Claim>)
      requires Ready() && v == Snapshot() && Shaped(oldCells, width, height) && i < height
      requires ScanReached(v, oldCells, claims0, i, 0)
      requires Distinct(out0) && Represents(out0, claims0)
      ensures r.Failure? ==> !ScanPasses(v, oldCells)
      ensures r.Success? ==> ScanReached(v, oldCells, claims, i + 1, 0)
      ensures r.Success? ==> Distinct(r.value) && Represents(r.value, claims)
      ensures r.Success? ==> forall x :: x in r.value ==> x in out0 || fresh(x)
    {
      var out := out0;
      claims := claims0;
      var j := 0;
      while j < width
        invariant 0 <= j <= width
        invariant ScanReached(v, oldCells, claims, i, j)
        invariant Distinct(out) && Represents(out, claims)
        invariant forall x :: x in out ==> x in out0 || fresh(x)
      {
        var c := NewCellSentence(oldCells, i, j, v);
        if c.Failure? {
          ScanFailure(v, oldCells, i, j);
          return Failure(c.error), claims;
        }
        CellStep(v, oldCells, claims, i, j, c.value.Some?);
        if c.value.Some? {
          assert c.value.value !in out;
          RepresentsAppend(out, claims, c.value.value);
          claims := claims + [c.value.value.Value()];
          out := out + [c.value.value];
        }
        j := j + 1;
      }
      ScanNextRow(v, oldCells, claims, i);
      return Success(out), claims;
    }

    /**
     * The sentence object `createNewSentences` makes for row `i`, column
     * `j`: none unless the cell is newly revealed and its sentence is over
     * some cells; failure when a revealed cell changed, or when the new
     * sentence is not well formed.
     */
    method NewCellSentence(oldCells: seq<seq<int>>, i: int, j: int, ghost v: View) returns (r: Result<Option<Sentence>, Error>)
      requires Ready() && v == Snapshot() && Shaped(oldCells, width, height) && 0 <= i < height && 0 <= j < width
      ensures r.Failure? <==> ((oldCells[i][j] != Covered && oldCells[i][j] != cells[i][j]) ||
        (NewlyRevealed(v, oldCells, i, j) && !WellFormed(ClaimAt(v, i, j))))
      ensures r.Failure? && oldCells[i][j] != Covered ==> r.error == RevealedCellChanged
      ensures r.Success? ==> (r.value.Some? <==> NewlyRevealed(v, oldCells, i, j) && ClaimAt(v, i, j).cells != {})
      ensures r.Success? && r.value.Some? ==> fresh(r.value.value) && r.value.value.Value() == ClaimAt(v, i, j)
    {
      if oldCells[i][j] != Covered {
        if oldCells[i][j] != cells[i][j] {
          return Failure(RevealedCellChanged);
        }
        return Success(None);
      }
      if cells[i][j] == Covered {
        return Success(None);
      }
      var s := GetCellSentence(i, j);
      if s.Failure? {
        return Failure(s.error);
      }
      if s.value.IsTrivial() {
        return Success(None);
      }
      return Success(Some(s.value));
    }

    // -------------------------------------------------------- knowledge base

    /** Marks the given cells as proven mines. */
    method AddMines(cells: set<nat>)
      requires Valid() && Within(cells)
      modifies mines
      ensures Valid() && Values(knowledge) == old(Values(knowledge))
      ensures forall y, x :: 0 <= y < height && 0 <= x < width && old(mines[y, x]) ==> mines[y, x]
      ensures MineCells() == old(MineCells()) + cells
    {
      MarkMines(mines, cells);
    }

    /** Records the given cells as proven safe. */
    method AddSafes(cells: set<nat>)
      requires Valid() && Within(cells)
      modifies this`safes
      ensures Valid() && safes == old(safes) + cells
    {
      safes := safes + cells;
    }

    /** Whether the knowledge base holds a sentence over the same cells. */
    method ContainsSentence(s: Sentence) returns (r: bool)
      ensures r <==> exists k :: 0 <= k < |knowledge| && knowledge[k].cells == s.cells
      ensures r <==> Covers(Values(knowledge), s.cells)
    {
      CoversValues(knowledge, s.cells);
      var k := 0;
      while k < |knowledge|
        invariant 0 <= k <= |knowledge|
        invariant forall k' :: 0 <= k' < k ==> knowledge[k'].cells != s.cells
      {
        var same := knowledge[k].Equals(s);
        if same {
          return true;
        }
        k := k + 1;
      }
      return false;
    }

    /**
     * Cleans the sentence, then: if all its cells are mines, marks them
     * (`(true, false)`); else if all are safe, records them (`(true, false)`);
     * else if a sentence over the same cells is known, drops it
     * (`(false, false)`); else appends it (`(false, true)`). A sentence that
     * cleans down to no cells counts as all mines.
     */
    method AddSentence(s: Sentence) returns (derived: bool, added: bool)
      requires Valid() && s !in knowledge && Within(s.cells)
      modifies s, this`knowledge, this`safes, mines
      ensures Valid()
      ensures s.Value() == old(Cleaned(s.Value()))
      ensures forall y, x :: 0 <= y < height && 0 <= x < width && old(mines[y, x]) ==> mines[y, x]
      ensures knowledge == if added then old(knowledge) + [s] else old(knowledge)
      ensures Tally(Values(knowledge), MineCells(), safes, derived, added) ==
        Admit(Tally(old(Values(knowledge)), old(MineCells()), old(safes), false, false), Revealed(), old(s.Value()))
    {
      ghost var t := Tally(Values(knowledge), MineCells(), safes, false, false);
      CleanAside(s, t);
      derived, added := Record(s, t);
    }

    /** The first step of `AddSentence`: cleans a sentence outside the
        knowledge base, which leaves the rest of the state as it is. */
    method CleanAside(s: Sentence, ghost t: Tally)
      requires Valid() && s !in knowledge && Within(s.cells)
      requires t == Tally(Values(knowledge), MineCells(), safes, false, false)
      modifies s
      ensures Valid() && Within(s.cells) && t == Tally(Values(knowledge), MineCells(), safes, false, false)
      ensures s.Value() == old(Cleaned(s.Value())) == Scrub(old(s.Value()), t.mines, t.safes + Revealed())
    {
      SafeCellsSplit();
      s.Clean(this);
      assert Values(knowledge) == t.claims;
    }

    /** What `AddSentence` does with a sentence once it is cleaned. */
    method Record(s: Sentence, ghost t: Tally) returns (derived: bool, added: bool)
      requires Valid() && s !in knowledge && Within(s.cells)
      requires t == Tally(Values(knowledge), MineCells(), safes, false, false)
      modifies this`knowledge, this`safes, mines
      ensures Valid()
      ensures forall y, x :: 0 <= y < height && 0 <= x < width && old(mines[y, x]) ==> mines[y, x]
      ensures knowledge == if added then old(knowledge) + [s] else old(knowledge)
      ensures Tally(Values(knowledge), MineCells(), safes, derived, added) == Settle(t, s.Value())
    {
      var sureMines := s.GetSureMines();
      if sureMines.Some? {
        AddMines(sureMines.value);
        assert Tally(Values(knowledge), MineCells(), safes, true, false) == Settle(t, s.Value());
        return true, false;
      }
      var sureSafes := s.GetSureSafes();
      if sureSafes.Some? {
        AddSafes(sureSafes.value);
        assert Tally(Values(knowledge), MineCells(), safes, true, false) == Settle(t, s.Value());
        return true, false;
      }
      derived := false;
      added := Keep(s);
    }

    /** What `Record` does with a sentence that resolves into neither mines
        nor safes: appends it unless a sentence over the same cells is known. */
    method Keep(s: Sentence) returns (added: bool)
      requires Valid() && s !in knowledge && Within(s.cells) && |s.cells| != s.count && s.count != 0
      modifies this`knowledge
      ensures Valid()
      ensures knowledge == if added then old(knowledge) + [s] else old(knowledge)
      ensures Tally(Values(knowledge), MineCells(), safes, false, added) ==
        Settle(Tally(old(Values(knowledge)), MineCells(), safes, false, false), s.Value())
    {
      ghost var t := Tally(Values(knowledge), MineCells(), safes, false, false);
      var known := ContainsSentence(s);
      assert t == Tally(Values(knowledge), MineCells(), safes, false, false);
      SettleUndecided(t, s.Value(), known);
      if known {
        return false;
      }
      Append(s);
      return true;
    }

    /** Appends `s`, a sentence over cells no known sentence is over. */
    method Append(s: Sentence)
      requires Valid() && s !in knowledge && Within(s.cells)
      requires forall k :: 0 <= k < |knowledge| ==> knowledge[k].cells != s.cells
      modifies this`knowledge
      ensures Valid() && knowledge == old(knowledge) + [s]
      ensures Tally(Values(knowledge), MineCells(), safes, false, true) ==
        Tally(old(Values(knowledge)) + [s.Value()], old(MineCells()), old(safes), false, true)
    {
      ValuesAppend(knowledge, s);
      ApartAppend(knowledge, s);
      knowledge := knowledge + [s];
    }

    /** Appending a sentence over new cells keeps the cell sets pairwise
        different. */
    static lemma ApartAppend(ss: seq<Sentence>, s: Sentence)
      requires forall a, b :: 0 <= a < b < |ss| ==> ss[a].cells != ss[b].cells
      requires forall k :: 0 <= k < |ss| ==> ss[k].cells != s.cells
      ensures forall a, b :: 0 <= a < b < |ss + [s]| ==> (ss + [s])[a].cells != (ss + [s])[b].cells
    {
    }

    /** Adds the sentences in order; reports whether any of them was resolved
        into mines or safes or was appended. */
    method AddSentences(sentences: seq<Sentence>) returns (r: bool)
      requires Valid() && Distinct(sentences)
      requires forall x :: x in sentences ==> x !in knowledge && Within(x.cells)
      modifies set x | x in sentences, this`knowledge, this`safes, mines
      ensures Valid()
      ensures forall y, x :: 0 <= y < height && 0 <= x < width && old(mines[y, x]) ==> mines[y, x]
      ensures old(MineCells()) <= MineCells() && old(safes) <= safes
      ensures |old(knowledge)| <= |knowledge| && knowledge[..|old(knowledge)|] == old(knowledge)
      ensures forall x :: x in knowledge ==> x in old(knowledge) || x in sentences
      ensures !r ==> knowledge == old(knowledge) && MineCells() == old(MineCells()) && safes == old(safes)
      ensures var t := AdmitAll(Tally(old(Values(knowledge)), old(MineCells()), old(safes), false, false), Revealed(), old(Values(sentences)));
        Values(knowledge) == t.claims && MineCells() == t.mines && safes == t.safes && r == (t.derived || t.added)
    {
      var derivedAny, addedAny := AddEach(sentences);
      r := derivedAny || addedAny;
    }

    /** The loop `addSentences`, `cleanup` and `cleanKnowledgeBase` share:
        `AddSentence` on each sentence in order, reporting whether any was
        resolved into mines or safes and whether any was appended. */
    method AddEach(sentences: seq<Sentence>) returns (derivedAny: bool, addedAny: bool)
      requires Valid() && Distinct(sentences)
      requires forall x :: x in sentences ==> x !in knowledge && Within(x.cells)
      modifies set x | x in sentences, this`knowledge, this`safes, mines
      ensures Valid()
      ensures forall y, x :: 0 <= y < height && 0 <= x < width && old(mines[y, x]) ==> mines[y, x]
      ensures old(MineCells()) <= MineCells() && old(safes) <= safes
      ensures |old(knowledge)| <= |knowledge| && knowledge[..|old(knowledge)|] == old(knowledge)
      ensures forall x :: x in knowledge ==> x in old(knowledge) || x in sentences
      ensures !derivedAny ==> MineCells() == old(MineCells()) && safes == old(safes)
      ensures !addedAny ==> knowledge == old(knowledge)
      ensures Tally(Values(knowledge), MineCells(), safes, derivedAny, addedAny) ==
        AdmitAll(Tally(old(Values(knowledge)), old(MineCells()), old(safes), false, false), Revealed(), old(Values(sentences)))
    {
      ghost var t := Tally(Values(knowledge), MineCells(), safes, false, false);
      derivedAny, addedAny := AddInOrder(sentences);
      AdmitAllFlags(t, Revealed(), old(Values(sentences)));
      if !addedAny {
        assert |Values(knowledge)| == |old(Values(knowledge))|;
      }
    }

    /** The loop of `AddEach`. */
    method AddInOrder(sentences: seq<Sentence>) returns (derivedAny: bool, addedAny: bool)
      requires Valid() && Distinct(sentences)
      requires forall x :: x in sentences ==> x !in knowledge && Within(x.cells)
      modifies set x | x in sentences, this`knowledge, this`safes, mines
      ensures Valid()
      ensures forall y, x :: 0 <= y < height && 0 <= x < width && old(mines[y, x]) ==> mines[y, x]
      ensures |old(knowledge)| <= |knowledge| && knowledge[..|old(knowledge)|] == old(knowledge)
      ensures forall x :: x in knowledge ==> x in old(knowledge) || x in sentences
      ensures Tally(Values(knowledge), MineCells(), safes, derivedAny, addedAny) ==
        AdmitAll(Tally(old(Values(knowledge)), old(MineCells()), old(safes), false, false), Revealed(), old(Values(sentences)))
    {
      ghost var values0 := Values(sentences);
      ghost var revealed := Revealed();
      ghost var spec := AdmitAll(Tally(Values(knowledge), MineCells(), safes, false, false), revealed, values0);
      derivedAny, addedAny := false, false;
      var k := 0;
      while k < |sentences|
        invariant 0 <= k <= |sentences|
        invariant Valid()
        invariant forall y, x :: 0 <= y < height && 0 <= x < width && old(mines[y, x]) ==> mines[y, x]
        invariant Extends(knowledge, old(knowledge), sentences)
        invariant forall j :: k <= j < |sentences| ==> sentences[j] !in knowledge && sentences[j].Value() == values0[j]
        invariant AdmitAll(Tally(Values(knowledge), MineCells(), safes, derivedAny, addedAny), revealed, values0[k..]) == spec
      {
        ghost var before := knowledge;
        derivedAny, addedAny := AddNext(sentences, k, values0, revealed, derivedAny, addedAny);
        if knowledge != before {
          ExtendsStep(before, old(knowledge), sentences, k);
        }
        k := k + 1;
      }
      assert Revealed() == revealed;
    }

    /** One step of `AddEach`: `AddSentence` on the `k`-th sentence, with the
        flags so far or-ed in; the fold over the values from the `k`-th on is
        the fold from the new state over the values after it. */
    method AddNext(sentences: seq<Sentence>, k: nat, ghost values0: seq<Claim>, ghost revealed: set<nat>,
                   derivedAny0: bool, addedAny0: bool)
      returns (derivedAny: bool, addedAny: bool)
      requires Valid() && Distinct(sentences) && k < |sentences| == |values0| && revealed == Revealed()
      requires forall j :: k <= j < |sentences| ==> sentences[j] !in knowledge && Within(sentences[j].cells)
      requires forall j :: k <= j < |sentences| ==> sentences[j].Value() == values0[j]
      modifies sentences[k], this`knowledge, this`safes, mines
      ensures Valid()
      ensures forall y, x :: 0 <= y < height && 0 <= x < width && old(mines[y, x]) ==> mines[y, x]
      ensures knowledge == old(knowledge) || knowledge == old(knowledge) + [sentences[k]]
      ensures forall j :: k < j < |sentences| ==> sentences[j] !in knowledge && sentences[j].Value() == values0[j]
      ensures AdmitAll(Tally(Values(knowledge), MineCells(), safes, derivedAny, addedAny), revealed, values0[k + 1..]) ==
        AdmitAll(Tally(old(Values(knowledge)), old(MineCells()), old(safes), derivedAny0, addedAny0), revealed, values0[k..])
    {
      var s := sentences[k];
      ghost var t := Tally(Values(knowledge), MineCells(), safes, derivedAny0, addedAny0);
      AdmitAllAt(t, revealed, values0, k);
      ghost var next;
      derivedAny, addedAny, next := AddStep(s, t, revealed, derivedAny0, addedAny0);
      forall j | k < j < |sentences| ensures sentences[j] !in knowledge && sentences[j].Value() == values0[j] {
        assert sentences[j] != s;
      }
    }

    /** `AddSentence` on `s`, with the flags so far or-ed in: the new state
        is one step of the fold from `cur`. */
    method AddStep(s: Sentence, ghost cur: Tally, ghost revealed: set<nat>, derivedAny0: bool, addedAny0: bool)
      returns (derivedAny: bool, addedAny: bool, ghost next: Tally)
      requires Valid() && s !in knowledge && Within(s.cells) && revealed == Revealed()
      requires cur == Tally(Values(knowledge), MineCells(), safes, derivedAny0, addedAny0)
      modifies s, this`knowledge, this`safes, mines
      ensures Valid()
      ensures forall y, x :: 0 <= y < height && 0 <= x < width && old(mines[y, x]) ==> mines[y, x]
      ensures knowledge == old(knowledge) || knowledge == old(knowledge) + [s]
      ensures next == Tally(Values(knowledge), MineCells(), safes, derivedAny, addedAny)
      ensures next == Admit(cur, revealed, old(s.Value()))
    {
      AdmitFlags(cur, revealed, s.Value());
      var derived, added := AddSentence(s);
      derivedAny := derivedAny0 || derived;
      addedAny := addedAny0 || added;
      next := Tally(Values(knowledge), MineCells(), safes, derivedAny, addedAny);
    }

    /** The loop of an update: while the last round derived or appended
        something, and at most `fuel` times, runs one round, whose chained
        sentences wait next. */
    method RunRounds(newSentences0: seq<Sentence>, fuel: nat) returns (r: Result<(), Error>)
      requires Valid() && Distinct(newSentences0)
      requires forall x :: x in newSentences0 ==> x !in knowledge && Within(x.cells)
      modifies (set x | x in newSentences0), knowledge, this`knowledge, this`safes, mines
      ensures Valid()
      ensures forall y, x :: 0 <= y < height && 0 <= x < width && old(mines[y, x]) ==> mines[y, x]
      ensures forall x :: x in knowledge ==> x in old(knowledge) || x in newSentences0 || fresh(x)
      ensures r.Success? <==>
        Rounds(Tally(old(Values(knowledge)), old(MineCells()), old(safes), false, false), Revealed(), old(Values(newSentences0)), true, fuel).Some?
      ensures r.Success? ==>
        Reaches(Tally(old(Values(knowledge)), old(MineCells()), old(safes), false, false), Revealed(), old(Values(newSentences0)), fuel,
                Values(knowledge), MineCells(), safes)
    {
      ghost var revealed := Revealed();
      ghost var cur := Tally(Values(knowledge), MineCells(), safes, false, false);
      ghost var news := Values(newSentences0);
      ghost var spec := Rounds(cur, revealed, news, true, fuel);
      var newSentences := newSentences0;
      var isNewKnowledgeAdded := true;
      var left := fuel;
      while isNewKnowledgeAdded
        invariant Valid() && Revealed() == revealed
        invariant forall y, x :: 0 <= y < height && 0 <= x < width && old(mines[y, x]) ==> mines[y, x]
        invariant Distinct(newSentences) && forall x :: x in newSentences ==> x !in knowledge && Within(x.cells)
        invariant forall x :: x in newSentences ==> x in newSentences0 || fresh(x)
        invariant forall x :: x in knowledge ==> x in old(knowledge) || x in newSentences0 || fresh(x)
        invariant cur == Tally(Values(knowledge), MineCells(), safes, false, false) && news == Values(newSentences)
        invariant Rounds(cur, revealed, news, isNewKnowledgeAdded, left) == spec
        decreases left
      {
        if left == 0 {
          break;
        }
        ghost var before := left;
        left := left - 1;
        var round, next := NextRound(newSentences, cur, revealed, news, before, left);
        if round.Failure? {
          return Failure(round.error);
        }
        newSentences := round.value.0;
        isNewKnowledgeAdded := round.value.1;
        cur, news := next, Values(newSentences);
      }
      assert spec == Some(cur);
      return Success(());
    }

    /** One pass of the loop of `RunRounds`, with `left` rounds of fuel left
        before it and `rest` after it: the rounds from the new state are the
        rounds from the old one. */
    method NextRound(newSentences: seq<Sentence>, ghost cur: Tally, ghost revealed: set<nat>, ghost news: seq<Claim>,
                     ghost left: nat, ghost rest: nat)
      returns (r: Result<(seq<Sentence>, bool), Error>, ghost next: Tally)
      requires Valid() && Distinct(newSentences) && left == rest + 1
      requires forall x :: x in newSentences ==> x !in knowledge && Within(x.cells)
      requires cur == Tally(Values(knowledge), MineCells(), safes, false, false) && revealed == Revealed()
      requires news == Values(newSentences)
      modifies (set x | x in newSentences), knowledge, this`knowledge, this`safes, mines
      ensures Valid() && Revealed() == revealed
      ensures forall y, x :: 0 <= y < height && 0 <= x < width && old(mines[y, x]) ==> mines[y, x]
      ensures forall x :: x in knowledge ==> x in old(knowledge) || x in newSentences
      ensures next == Tally(Values(knowledge), MineCells(), safes, false, false)
      ensures r.Failure? ==> Rounds(cur, revealed, news, true, left) == None
      ensures r.Success? ==> Rounds(cur, revealed, news, true, left) == Rounds(next, revealed, Values(r.value.0), r.value.1, rest)
      ensures r.Success? ==> Distinct(r.value.0) && Fresh(r.value.0) && forall x :: x in r.value.0 ==> x !in knowledge && Within(x.cells)
    {
      RoundsStep(cur, revealed, news, left, rest);
      r := Round(newSentences, cur, revealed);
      next := Tally(Values(knowledge), MineCells(), safes, false, false);
    }

    /** One round of an update: adds the waiting sentences, then cleans up;
        reports whether either derived or appended something. The new state
        is the `Cycle` of the state `t` the round starts from. */
    method Round(newSentences: seq<Sentence>, ghost t: Tally, ghost revealed: set<nat>)
      returns (r: Result<(seq<Sentence>, bool), Error>)
      requires Valid() && Distinct(newSentences)
      requires forall x :: x in newSentences ==> x !in knowledge && Within(x.cells)
      requires t == Tally(Values(knowledge), MineCells(), safes, false, false) && revealed == Revealed()
      modifies (set x | x in newSentences), knowledge, this`knowledge, this`safes, mines
      ensures Valid() && Revealed() == revealed
      ensures forall y, x :: 0 <= y < height && 0 <= x < width && old(mines[y, x]) ==> mines[y, x]
      ensures forall x :: x in knowledge ==> x in old(knowledge) || x in newSentences
      ensures var c := Cycle(t, revealed, old(Values(newSentences)));
        Tally(Values(knowledge), MineCells(), safes, false, false) == c.0 &&
        (r.Success? <==> Chainable(c.0.claims, |c.0.claims|)) &&
        (r.Success? ==> Values(r.value.0) == Deductions(c.0.claims, |c.0.claims|) && r.value.1 == c.1)
      ensures r.Success? ==> Distinct(r.value.0) && Fresh(r.value.0) && forall x :: x in r.value.0 ==> x !in knowledge && Within(x.cells)
    {
      ghost var u := AdmitAll(t, revealed, Values(newSentences));
      var added := AddSentences(newSentences);
      assert Values(knowledge) == u.claims && MineCells() == u.mines && safes == u.safes && added == (u.derived || u.added);
      var cleanup := Cleanup();
      if cleanup.Failure? {
        return Failure(cleanup.error);
      }
      return Success((cleanup.value.0, added || cleanup.value.1));
    }

    /** Re-adds every sentence of the knowledge base against the current
        state and forward-chains over the result; reports whether any
        re-added sentence was resolved into mines or safes. The new state is
        the fold of `addSentence` over the old sentences from an empty
        knowledge base, and the result is what that knowledge base deduces. */
    method Cleanup() returns (r: Result<(seq<Sentence>, bool), Error>)
      requires Valid()
      modifies knowledge, this`knowledge, this`safes, mines
      ensures Valid()
      ensures forall y, x :: 0 <= y < height && 0 <= x < width && old(mines[y, x]) ==> mines[y, x]
      ensures old(MineCells()) <= MineCells() && old(safes) <= safes
      ensures forall x :: x in knowledge ==> x in old(knowledge)
      ensures var t := AdmitAll(Tally([], old(MineCells()), old(safes), false, false), Revealed(), old(Values(knowledge)));
        Values(knowledge) == t.claims && MineCells() == t.mines && safes == t.safes &&
        (r.Success? <==> Chainable(t.claims, |t.claims|)) &&
        (r.Success? ==> Values(r.value.0) == Deductions(t.claims, |t.claims|) && r.value.1 == t.derived)
      ensures r.Success? ==> Distinct(r.value.0) && forall x :: x in r.value.0 ==> x !in knowledge && Within(x.cells)
      ensures r.Success? ==> Fresh(r.value.0)
      ensures r.Success? && !r.value.1 ==> MineCells() == old(MineCells()) && safes == old(safes)
    {
      ghost var from, claims := Tally([], MineCells(), safes, false, false), Values(knowledge);
      var derivedAny, _ := Readd(from, claims);
      ghost var t := AdmitAll(from, Revealed(), claims);
      var next := ForwardChain();
      assert Values(knowledge) == t.claims && MineCells() == t.mines;
      if next.Failure? {
        return Failure(next.error);
      }
      return Success((next.value, derivedAny));
    }

    /** The loop `cleanup` and `cleanKnowledgeBase` share: empties the
        knowledge base and adds its old sentences `claims` back in order,
        from `from`: no knowledge, with the mines and safes known now. */
    method Readd(ghost from: Tally, ghost claims: seq<Claim>) returns (derivedAny: bool, addedAny: bool)
      requires Valid() && from == Tally([], MineCells(), safes, false, false) && claims == Values(knowledge)
      modifies knowledge, this`knowledge, this`safes, mines
      ensures Valid()
      ensures forall y, x :: 0 <= y < height && 0 <= x < width && old(mines[y, x]) ==> mines[y, x]
      ensures from.mines <= MineCells() && from.safes <= safes
      ensures forall x :: x in knowledge ==> x in old(knowledge)
      ensures !derivedAny ==> MineCells() == from.mines && safes == from.safes
      ensures var t := AdmitAll(from, Revealed(), claims);
        Values(knowledge) == t.claims && MineCells() == t.mines && safes == t.safes && derivedAny == t.derived
    {
      var oldKnowledge := knowledge;
      DistinctCells(oldKnowledge);
      knowledge := [];
      assert Tally(Values(knowledge), MineCells(), safes, false, false) == from && Values(oldKnowledge) == claims;
      derivedAny, addedAny := AddEach(oldKnowledge);
    }

    /** Objects with pairwise different cell sets are pairwise different. */
    static lemma DistinctCells(ss: seq<Sentence>)
      requires forall a, b :: 0 <= a < b < |ss| ==> ss[a].cells != ss[b].cells
      ensures Distinct(ss)
    {
    }

    /**
     * New sentence objects, one for every ordered pair of distinct entries
     * where one's cells contain the other's, in the order of the nested
     * loops; a failure where a derived sentence's constructor would fail its
     * assertion.
     */
    method ForwardChain() returns (r: Result<seq<Sentence>, Error>)
      requires Valid()
      ensures r.Success? <==> Chainable(Values(knowledge), |knowledge|)
      ensures r.Success? ==> Values(r.value) == Deductions(Values(knowledge), |knowledge|)
      ensures r.Success? ==> Fresh(r.value) && Distinct(r.value) && forall x :: x in r.value ==> Within(x.cells)
    {
      ghost var kb := Values(knowledge);
      assert Represents(knowledge, kb);
      var out: seq<Sentence> := [];
      ghost var claims: seq<Claim> := [];
      var i := 0;
      while i < |knowledge|
        invariant 0 <= i <= |knowledge|
        invariant Represents(knowledge, kb) && Chainable(kb, i) && claims == Deductions(kb, i)
        invariant Fresh(out) && Distinct(out) && Represents(out, claims)
      {
        var row;
        DeductionsStep(kb, i);
        row, claims := ChainRow(i, kb, out, claims);
        if row.Failure? {
          NotChainable(kb, i);
          RepresentsValues(knowledge, kb);
          return row;
        }
        out := row.value;
        i := i + 1;
      }
      RepresentsValues(out, claims);
      DeductionsOnBoard(kb, width * height);
      RepresentsOnBoard(out, claims, width * height);
      RepresentsValues(knowledge, kb);
      return Success(out);
    }

    /** One row of `ForwardChain`: what entry `i` deduces with every other
        entry, appended to `out0`. */
    method ChainRow(i: int, ghost kb: seq<Claim>, out0: seq<Sentence>, ghost claims0: seq<Claim>)
      returns (r: Result<seq<Sentence>, Error>, ghost claims: seq<Claim>)
      requires 0 <= i < |knowledge| && Represents(knowledge, kb)
      requires Distinct(out0) && Represents(out0, claims0)
      ensures r.Failure? <==> !RowChainable(kb, i, |kb|)
      ensures r.Success? ==> claims == claims0 + RowDeductions(kb, i, |kb|)
      ensures r.Success? ==> Distinct(r.value) && Represents(r.value, claims)
      ensures r.Success? ==> forall x :: x in r.value ==> x in out0 || fresh(x)
    {
      var out := out0;
      claims := claims0;
      var j := 0;
      while j < |knowledge|
        invariant 0 <= j <= |knowledge|
        invariant RowChainable(kb, i, j) && claims == claims0 + RowDeductions(kb, i, j)
        invariant Distinct(out) && Represents(out, claims)
        invariant forall x :: x in out ==> x in out0 || fresh(x)
      {
        RowStep(kb, i, j);
        if i != j {
          var d := knowledge[i].Deduce(knowledge[j]);
          assert knowledge[i].Value() == kb[i] && knowledge[j].Value() == kb[j];
          if d.Failure? {
            return Failure(d.error), claims;
          }
          if d.value.Some? {
            ghost var x := d.value.value.Value();
            assert d.value.value !in out;
            RepresentsAppend(out, claims, d.value.value);
            assert claims + [x] == claims0 + (RowDeductions(kb, i, j) + [x]);
            claims := claims + [x];
            out := out + [d.value.value];
          }
        }
        j := j + 1;
      }
      return Success(out), claims;
    }

    /** Starts a cycle on a new board: forgets the safes, takes the board, and
        re-adds every old sentence against it, from an empty knowledge base
        and no proven safes. */
    method CleanKnowledgeBase(board: seq<seq<int>>)
      requires Valid() && Shaped(board, width, height)
      modifies knowledge, this`knowledge, this`safes, this`cells, mines
      ensures Valid() && cells == board
      ensures forall y, x :: 0 <= y < height && 0 <= x < width && old(mines[y, x]) ==> mines[y, x]
      ensures forall i :: 0 <= i < |knowledge| ==> knowledge[i] in old(knowledge)
      ensures var t := AdmitAll(Tally([], old(MineCells()), {}, false, false), Revealed(), old(Values(knowledge)));
        Values(knowledge) == t.claims && MineCells() == t.mines && safes == t.safes
    {
      ghost var from, claims := Tally([], MineCells(), {}, false, false), Values(knowledge);
      Reset(board);
      var _, _ := Readd(from, claims);
      MembersAt(knowledge, old(knowledge));
    }

    /** The start of `CleanKnowledgeBase`: no safe cells, and the new board. */
    method Reset(board: seq<seq<int>>)
      requires Valid() && Shaped(board, width, height)
      modifies this`safes, this`cells
      ensures Valid() && cells == board && safes == {}
    {
      safes := {};
      cells := board;
    }

    // ----------------------------------------------------------------- moves

    /** Whether every covered cell is a proven mine. */
    method IsGameFinished() returns (finished: bool)
      requires Ready()
      ensures finished <==> Unresolved(cells, mines, Covered) == {}
    {
      finished := IsFinished(cells, mines, Covered);
    }

    /** A covered cell that is not a proven mine, at rank `seed % count` in
        row-major order (the seed stands for the random draw). */
    method RandomCell(seed: nat) returns (c: Coordinate)
      requires Ready() && Unresolved(cells, mines, Covered) != {}
      ensures InGrid(width, height, c) && CoordToNum(width, c) in Unresolved(cells, mines, Covered)
      ensures |Below(Unresolved(cells, mines, Covered), CoordToNum(width, c))| == seed % |Unresolved(cells, mines, Covered)|
    {
      c := PickUnresolved(cells, mines, Covered, seed);
    }

    /** `moves` and `guess` are what the solver answers: every proven-safe
        cell once if there is one, with no warning; otherwise one covered cell
        that is not a proven mine, flagged as a guess; otherwise nothing. */
    ghost predicate ToOpen(moves: seq<Coordinate>, guess: bool)
      reads this`cells, this`safes, mines
      requires Ready()
    {
      && (safes != {} ==> (!guess && |moves| == |safes| &&
        (forall p :: p in safes ==> NumToCoord(width, p) in moves) &&
        (forall k :: 0 <= k < |moves| ==> InGrid(width, height, moves[k]) && CoordToNum(width, moves[k]) in safes)))
      && (safes == {} && Unresolved(cells, mines, Covered) != {} ==> (guess && |moves| == 1 &&
        InGrid(width, height, moves[0]) && CoordToNum(width, moves[0]) in Unresolved(cells, mines, Covered)))
      && (safes == {} && Unresolved(cells, mines, Covered) == {} ==> !guess && moves == [])
    }

    /** The answer of an update, from what is known now. */
    method GetCellsToOpen(seed: nat) returns (moves: seq<Coordinate>, guess: bool)
      requires Ready()
      ensures ToOpen(moves, guess)
    {
      if safes != {} {
        moves := CoordsOf(width, height, safes);
        return moves, false;
      }
      var finished := IsGameFinished();
      if !finished {
        var c := RandomCell(seed);
        return [c], true;
      }
      return [], false;
    }

    /** An update to `board` from this state, for a mine set `a` that models
        the state, puts no mine on a revealed cell of `board` and makes every
        number of `board` true: every newly revealed cell's sentence is well
        formed, so the scan fails only where a revealed cell changed; the
        rounds over the first batch never fail; and `a` still agrees with the
        state they end in. These are the states `Update` is proved to reach. */
    lemma UpdateSound(a: set<nat>, board: seq<seq<int>>, fuel: nat)
      requires Ready() && Shaped(board, width, height)
      requires Models(a) && a !! RevealedOn(board, width, height) && CountsTrue(a, board, width, height)
      ensures var revealed := RevealedOn(board, width, height);
        var t := AdmitAll(Tally([], MineCells(), {}, false, false), revealed, Values(knowledge));
        var v := View(board, width, height, t.mines, set n: nat | n < width * height && (n in t.safes || At(board, width, height, n) != Covered));
        var s := Rounds(Tally(t.claims, t.mines, t.safes, false, false), revealed, NewClaims(v, cells, 0, 0), true, fuel);
        (ScanPasses(v, cells) <==> UnchangedBefore(v, cells, height, 0)) && s.Some? && Agrees(a, s.value, revealed)
    {
      var revealed := RevealedOn(board, width, height);
      var kb := Values(knowledge);
      forall c | c in kb ensures Holds(a, c) {
        var k :| 0 <= k < |kb| && kb[k] == c;
        assert knowledge[k] in knowledge;
      }
      var t0 := Tally([], MineCells(), {}, false, false);
      AdmitAllSound(a, t0, revealed, kb);
      var t := AdmitAll(t0, revealed, kb);
      var v := View(board, width, height, t.mines, set n: nat | n < width * height && (n in t.safes || At(board, width, height, n) != Covered));
      assert v.known <= t.safes + revealed;
      NewClaimsSound(a, v, cells);
      RoundsSound(a, Tally(t.claims, t.mines, t.safes, false, false), revealed, NewClaims(v, cells, 0, 0), true, fuel);
    }

    /**
     * One update cycle on a new board. The source repeats until a round adds
     * nothing; `fuel` bounds the number of rounds. `seed` stands for the
     * random draw of a guess.
     */
    method Update(board: seq<seq<int>>, fuel: nat, seed: nat) returns (r: Result<(seq<Coordinate>, bool), Error>)
      requires Valid() && Shaped(board, width, height)
      modifies knowledge, this`knowledge, this`safes, this`cells, mines
      ensures Valid() && cells == board
      ensures forall y, x :: 0 <= y < height && 0 <= x < width && old(mines[y, x]) ==> mines[y, x]
      ensures r.Success? ==> forall i, j :: 0 <= i < height && 0 <= j < width && old(cells)[i][j] != Covered ==>
        board[i][j] == old(cells)[i][j]
      ensures r.Success? ==> ToOpen(r.value.0, r.value.1)
      ensures var t := AdmitAll(Tally([], old(MineCells()), {}, false, false), Revealed(), old(Values(knowledge)));
        var v := View(board, width, height, t.mines, set n: nat | n < width * height && (n in t.safes || At(board, width, height, n) != Covered));
        r.Success? <==>
          ScanPasses(v, old(cells)) &&
          Rounds(Tally(t.claims, t.mines, t.safes, false, false), Revealed(), NewClaims(v, old(cells), 0, 0), true, fuel).Some?
      ensures r.Success? ==>
        var t := AdmitAll(Tally([], old(MineCells()), {}, false, false), Revealed(), old(Values(knowledge)));
        var v := View(board, width, height, t.mines, set n: nat | n < width * height && (n in t.safes || At(board, width, height, n) != Covered));
        Reaches(Tally(t.claims, t.mines, t.safes, false, false), Revealed(), NewClaims(v, old(cells), 0, 0), fuel,
                Values(knowledge), MineCells(), safes)
    {
      var oldCells := cells;
      CleanKnowledgeBase(board);
      ghost var t := AdmitAll(Tally([], old(MineCells()), {}, false, false), Revealed(), old(Values(knowledge)));
      assert Tally(Values(knowledge), MineCells(), safes, false, false) == Tally(t.claims, t.mines, t.safes, false, false);
      ghost var v := View(board, width, height, t.mines, set n: nat | n < width * height && (n in t.safes || At(board, width, height, n) != Covered));
      assert Snapshot() == v;
      r := Infer(oldCells, fuel, seed);
    }

    /** The part of an update after the knowledge base is cleaned: the
        sentences of the cells revealed since `oldCells`, the rounds, and the
        cells to open. On success the new state is where the rounds from the
        old state lead over those sentences in row-major order. */
    method Infer(oldCells: seq<seq<int>>, fuel: nat, seed: nat) returns (r: Result<(seq<Coordinate>, bool), Error>)
      requires Valid() && Shaped(oldCells, width, height)
      modifies knowledge, this`knowledge, this`safes, mines
      ensures Valid()
      ensures forall y, x :: 0 <= y < height && 0 <= x < width && old(mines[y, x]) ==> mines[y, x]
      ensures r.Success? ==> forall i, j :: 0 <= i < height && 0 <= j < width && oldCells[i][j] != Covered ==>
        cells[i][j] == oldCells[i][j]
      ensures r.Success? <==>
        ScanPasses(old(Snapshot()), oldCells) &&
        Rounds(Tally(old(Values(knowledge)), old(MineCells()), old(safes), false, false), Revealed(),
               NewClaims(old(Snapshot()), oldCells, 0, 0), true, fuel).Some?
      ensures r.Success? ==> ToOpen(r.value.0, r.value.1)
      ensures r.Success? ==>
        Reaches(Tally(old(Values(knowledge)), old(MineCells()), old(safes), false, false), Revealed(),
                NewClaims(old(Snapshot()), oldCells, 0, 0), fuel, Values(knowledge), MineCells(), safes)
    {
      ghost var start := Tally(Values(knowledge), MineCells(), safes, false, false);
      ghost var v := Snapshot();
      var created := CreateNewSentences(oldCells);
      if created.Failure? {
        return Failure(created.error);
      }
      assert forall i, j :: 0 <= i < height && 0 <= j < width && oldCells[i][j] != Covered ==>
        cells[i][j] == oldCells[i][j];
      assert Snapshot() == v;
      assert start == Tally(Values(knowledge), MineCells(), safes, false, false);
      r := Conclude(created.value, fuel, seed);
    }

    /** The rest of an update once the first sentences are made: the rounds,
        then the cells to open. */
    method Conclude(newSentences: seq<Sentence>, fuel: nat, seed: nat) returns (r: Result<(seq<Coordinate>, bool), Error>)
      requires Valid() && Distinct(newSentences)
      requires forall x :: x in newSentences ==> x !in knowledge && Within(x.cells)
      modifies (set x | x in newSentences), knowledge, this`knowledge, this`safes, mines
      ensures Valid()
      ensures forall y, x :: 0 <= y < height && 0 <= x < width && old(mines[y, x]) ==> mines[y, x]
      ensures r.Success? <==>
        Rounds(Tally(old(Values(knowledge)), old(MineCells()), old(safes), false, false), Revealed(), old(Values(newSentences)), true, fuel).Some?
      ensures r.Success? ==> ToOpen(r.value.0, r.value.1)
      ensures r.Success? ==>
        Reaches(Tally(old(Values(knowledge)), old(MineCells()), old(safes), false, false), Revealed(), old(Values(newSentences)), fuel,
                Values(knowledge), MineCells(), safes)
    {
      var done := RunRounds(newSentences, fuel);
      if done.Failure? {
        return Failure(done.error);
      }
      var moves, guess := GetCellsToOpen(seed);
      return Success((moves, guess));
    }
  }

  /** The values of a seq of sentence objects. */
  function Values(ss: seq<Sentence>): (r: seq<Claim>)
    reads ss
    ensures |r| == |ss| && forall k :: 0 <= k < |ss| ==> r[k] == ss[k].Value()
  {
    if ss == [] then [] else Values(ss[..|ss| - 1]) + [ss[|ss| - 1].Value()]
  }

  /** Some value of `ss` is over `cells` exactly when some object of `ss` is. */
  lemma CoversValues(ss: seq<Sentence>, cells: set<nat>)
    ensures Covers(Values(ss), cells) <==> exists k :: 0 <= k < |ss| && ss[k].cells == cells
  {
    CoversSome(Values(ss), cells);
    if exists k :: 0 <= k < |ss| && ss[k].cells == cells {
      var k :| 0 <= k < |ss| && ss[k].cells == cells;
      assert Values(ss)[k].cells == cells;
    }
  }

  lemma MembersAt(ks: seq<Sentence>, pool: seq<Sentence>)
    requires forall x :: x in ks ==> x in pool
    ensures forall i :: 0 <= i < |ks| ==> ks[i] in pool
  {
  }

  /** `ks` is `base` followed by sentences drawn from `pool`. */
  ghost predicate Extends(ks: seq<Sentence>, base: seq<Sentence>, pool: seq<Sentence>)
  {
    |base| <= |ks| && ks[..|base|] == base && forall x :: x in ks ==> x in base || x in pool
  }

  lemma ExtendsStep(ks: seq<Sentence>, base: seq<Sentence>, pool: seq<Sentence>, k: nat)
    requires Extends(ks, base, pool) && k < |pool|
    ensures Extends(ks + [pool[k]], base, pool)
  {
    assert (ks + [pool[k]])[..|base|] == ks[..|base|];
  }

  lemma ValuesAppend(ss: seq<Sentence>, x: Sentence)
    ensures Values(ss + [x]) == Values(ss) + [x.Value()]
  {
  }

  lemma RepresentsOnBoard(out: seq<Sentence>, claims: seq<Claim>, size: int)
    requires Represents(out, claims) && forall c :: c in claims ==> forall n :: n in c.cells ==> n < size
    ensures forall x :: x in out ==> forall n :: n in x.cells ==> n < size
  {
    forall x | x in out ensures forall n :: n in x.cells ==> n < size {
      var k :| 0 <= k < |out| && out[k] == x;
      assert claims[k] in claims;
    }
  }

  /** No object occurs twice. */
  predicate Distinct(ss: seq<Sentence>)
  {
    forall a, b :: 0 <= a < b < |ss| ==> ss[a] != ss[b]
  }

  /** Every object was allocated by the current method. */
  twostate predicate Fresh(new ss: seq<Sentence>)
  {
    forall x :: x in ss ==> fresh(x)
  }
}
