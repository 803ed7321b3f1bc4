/**
 * The sentence of the interval-bound solver: a set of covered cells together
 * with a lower and an upper bound on how many of them are mines, and the
 * algebra that derives new sentences from old ones. Sentences are values;
 * every operation returns a new one. Where the source's constructor would
 * fail its assertion `0 <= lower <= upper <= |positions|`, the operations
 * here return `None`.
 */
module IntervalSentence {
  import opened Wrappers
  import opened Board

  /** Between `lower` and `upper` of the cells in `positions` are mines. */
  datatype Sentence = Sentence(positions: set<nat>, lower: int, upper: int)

  /** What the solver knows when it reduces a sentence: the covered cells, the
      cells marked as mines, the cells proven safe. */
  datatype Facts = Facts(free: set<nat>, mines: set<nat>, safes: set<nat>)

  /** The invariant the constructor asserts. */
  predicate WellFormed(s: Sentence)
  {
    0 <= s.lower <= s.upper <= |s.positions|
  }

  /** The assignment that puts a mine on exactly the cells of `a` satisfies `s`. */
  predicate Holds(a: set<nat>, s: Sentence)
  {
    s.lower <= |a * s.positions| <= s.upper
  }

  /** An assignment agrees with the facts: mines lie on covered cells only,
      every covered cell marked as a mine holds one, and every cell proven
      safe (and not marked as a mine) holds none. */
  predicate Consistent(a: set<nat>, f: Facts)
  {
    a <= f.free && f.free * f.mines <= a && a !! (f.safes - f.mines)
  }

  function Max(a: int, b: int): int { if a >= b then a else b }

  function Min(a: int, b: int): int { if a <= b then a else b }

  // ------------------------------------------------------------ construction

  /** The private constructor: `None` where its assertions would fail. */
  function New(positions: set<nat>, lower: int, upper: int): (r: Option<Sentence>)
    ensures r.Some? <==> 0 <= lower <= upper <= |positions|
    ensures r.Some? ==> WellFormed(r.value) && r.value == Sentence(positions, lower, upper)
  {
    if 0 <= lower && lower <= upper && upper <= |positions| then
      Some(Sentence(positions, lower, upper))
    else
      None
  }

  /** An exact sentence: exactly `count` of `positions` are mines. */
  function OfCount(positions: set<nat>, count: int): (r: Option<Sentence>)
    ensures r.Some? <==> 0 <= count <= |positions|
    ensures r.Some? ==> WellFormed(r.value) && r.value.positions == positions
                        && r.value.lower == count && r.value.upper == count
    ensures r.Some? ==> forall a :: Holds(a, r.value) <==> |a * positions| == count
  {
    New(positions, count, count)
  }

  // ------------------------------------------------------------ set algebra

  /** The cells of `a` that are not in `b`. */
  function PositionDifference(a: set<nat>, b: set<nat>): (r: set<nat>)
    ensures r <= a && r !! b
    ensures r + PositionIntersection(a, b) == a
    ensures |r| + |PositionIntersection(a, b)| == |a|
  {
    set p | p in a && p !in b
  }

  /** The cells in both `a` and `b`. */
  function PositionIntersection(a: set<nat>, b: set<nat>): (r: set<nat>)
    ensures r <= a && r <= b
    ensures forall p :: p in a && p in b ==> p in r
  {
    set p | p in a && p in b
  }

  /** A sentence says nothing: it holds for every assignment. */
  predicate IsTrivial(s: Sentence)
  {
    s.lower == 0 && s.upper == |s.positions|
  }

  /** Trivial sentences are exactly those every assignment satisfies. */
  lemma TrivialIffAlwaysHolds(s: Sentence)
    requires WellFormed(s)
    ensures IsTrivial(s) <==> forall a: set<nat> :: Holds(a, s)
  {
    if IsTrivial(s) {
      forall a: set<nat> ensures Holds(a, s) {
        CountAtMostSize(a, s.positions);
      }
    } else {
      var none: set<nat> := {};
      assert none * s.positions == {};
      assert s.positions * s.positions == s.positions;
      assert !Holds(none, s) || !Holds(s.positions, s);
    }
  }

  /** The cells of the two sentences are the same set (the loop of the source
      checks inclusion one way and then compares sizes). */
  function IsCompeting(s: Sentence, t: Sentence): (r: bool)
    ensures r <==> s.positions == t.positions
  {
    if s.positions <= t.positions && |s.positions| == |t.positions| then
      SubsetSameSize(s.positions, t.positions);
      true
    else
      false
  }

  /** Both sentences say exactly the same thing. */
  function Equals(s: Sentence, t: Sentence): (r: bool)
    ensures r <==> s == t
  {
    var both := PositionIntersection(s.positions, t.positions);
    if |both| == |s.positions| && |both| == |t.positions| && s.lower == t.lower && s.upper == t.upper then
      SubsetSameSize(both, s.positions);
      SubsetSameSize(both, t.positions);
      true
    else
      assert s == t ==> both == s.positions;
      false
  }

  /** The new sentence tightens the old one: a stricter lower or upper bound. */
  predicate IsSomethingNewWith(s: Sentence, known: Sentence)
  {
    s.lower > known.lower || s.upper < known.upper
  }

  /** Merges two sentences over the same cells: the tighter of each bound;
      `None` when the bounds no longer overlap. */
  function Combine(s: Sentence, t: Sentence): (r: Option<Sentence>)
    requires WellFormed(s)
    ensures r.Some? <==> Max(s.lower, t.lower) <= Min(s.upper, t.upper) && 0 <= Min(s.upper, t.upper)
    ensures r.Some? ==> WellFormed(r.value) && r.value.positions == s.positions
    ensures r.Some? ==> s.lower <= r.value.lower && t.lower <= r.value.lower
    ensures r.Some? ==> r.value.upper <= s.upper && r.value.upper <= t.upper
  {
    New(s.positions, Max(s.lower, t.lower), Min(s.upper, t.upper))
  }

  /** Combining is sound: an assignment satisfying two sentences over the same
      cells satisfies their combination, which therefore exists. */
  lemma CombineSound(a: set<nat>, s: Sentence, t: Sentence)
    requires WellFormed(s) && s.positions == t.positions && Holds(a, s) && Holds(a, t)
    ensures Combine(s, t).Some? && Holds(a, Combine(s, t).value)
  {
  }

  /** When the new sentence brings nothing new, combining the old entry with it
      gives the old entry back; when it does, the result differs from the old. */
  lemma CombineWithNothingNew(known: Sentence, s: Sentence)
    requires WellFormed(known) && WellFormed(s) && IsCompeting(known, s)
    ensures !IsSomethingNewWith(s, known) ==> Combine(known, s) == Some(known)
    ensures IsSomethingNewWith(s, known) && Combine(known, s).Some? ==> Combine(known, s).value != known
  {
  }

  /** The cells proven to be mines: all of them when `lower` reaches the size. */
  function SureMines(s: Sentence): (r: set<nat>)
    ensures r <= s.positions
    ensures r != {} <==> s.positions != {} && s.lower == |s.positions|
  {
    if s.lower == |s.positions| then s.positions else {}
  }

  /** The cells proven to be safe: all of them when `upper` is zero. */
  function SureSafes(s: Sentence): (r: set<nat>)
    ensures r <= s.positions
    ensures r != {} <==> s.positions != {} && s.upper == 0
  {
    if s.upper == 0 then s.positions else {}
  }

  /** Sure mines are mines under every assignment that satisfies the sentence. */
  lemma SureMinesAreMines(a: set<nat>, s: Sentence)
    requires Holds(a, s)
    ensures SureMines(s) <= a
  {
    if s.lower == |s.positions| {
      CountAtMostSize(a, s.positions);
      SubsetSameSize(a * s.positions, s.positions);
    }
  }

  /** Sure safes hold no mine under every assignment that satisfies the sentence. */
  lemma SureSafesAreSafe(a: set<nat>, s: Sentence)
    requires Holds(a, s)
    ensures SureSafes(s) !! a
  {
    if s.upper == 0 {
      forall p | p in s.positions ensures p !in a {
        assert p in a ==> p in a * s.positions;
      }
    }
  }

  // -------------------------------------------------------------- deduction

  /** The sentence over the cells only in `s`, given `t`: what the mines `t`
      may not absorb must lie in `onlyThis`. */
  function Subtract(s: Sentence, t: Sentence, onlyThis: set<nat>, onlyOther: set<nat>): (r: Option<Sentence>)
    ensures r.Some? ==> WellFormed(r.value) && r.value.positions == onlyThis
  {
    New(onlyThis,
        Max(s.lower - t.upper, 0),
        Min(s.upper - Max(t.lower - |onlyOther|, 0), |onlyThis|))
  }

  /** Subtraction is sound: every assignment satisfying both sentences satisfies
      the difference, which therefore exists. */
  lemma SubtractSound(a: set<nat>, s: Sentence, t: Sentence)
    requires Holds(a, s) && Holds(a, t)
    ensures var r := Subtract(s, t, s.positions - t.positions, t.positions - s.positions);
            r.Some? && Holds(a, r.value)
  {
    var onlyThis, onlyOther, both := s.positions - t.positions, t.positions - s.positions, s.positions * t.positions;
    assert s.positions == onlyThis + both;
    assert t.positions == onlyOther + both;
    CountSplit(a, onlyThis, both);
    CountSplit(a, onlyOther, both);
    CountAtMostSize(a, onlyThis);
    CountAtMostSize(a, onlyOther);
  }

  /** The sentence over the shared cells, given the two differences. */
  function Intersection(s: Sentence, t: Sentence, thisDifference: Sentence, otherDifference: Sentence): (r: Option<Sentence>)
    ensures r.Some? ==> WellFormed(r.value) && r.value.positions == s.positions * t.positions
  {
    var positions := PositionIntersection(s.positions, t.positions);
    assert positions == s.positions * t.positions;
    New(positions,
        Max(Max(s.lower - thisDifference.upper, t.lower - otherDifference.upper), 0),
        Min(Min(s.upper - thisDifference.lower, t.upper - otherDifference.lower), |positions|))
  }

  /** Intersection is sound for sound differences. */
  lemma IntersectionSound(a: set<nat>, s: Sentence, t: Sentence, thisDifference: Sentence, otherDifference: Sentence)
    requires Holds(a, s) && Holds(a, t)
    requires thisDifference.positions == s.positions - t.positions && Holds(a, thisDifference)
    requires otherDifference.positions == t.positions - s.positions && Holds(a, otherDifference)
    ensures var r := Intersection(s, t, thisDifference, otherDifference);
            r.Some? && Holds(a, r.value)
  {
    var both := s.positions * t.positions;
    assert PositionIntersection(s.positions, t.positions) == both;
    assert s.positions == thisDifference.positions + both;
    assert t.positions == otherDifference.positions + both;
    CountSplit(a, thisDifference.positions, both);
    CountSplit(a, otherDifference.positions, both);
    CountAtMostSize(a, both);
  }

  /** The informative ones among three sentences, in order. */
  function KeepInformative(x: Sentence, y: Sentence, z: Sentence): (r: seq<Sentence>)
    ensures |r| <= 3
    ensures forall w :: w in r <==> (w == x || w == y || w == z) && !IsTrivial(w)
  {
    (if IsTrivial(x) then [] else [x]) + (if IsTrivial(y) then [] else [y]) + (if IsTrivial(z) then [] else [z])
  }

  /** Between disjoint sets, each difference is the whole set. */
  lemma DisjointDifference(a: set<nat>, b: set<nat>)
    requires a !! b
    ensures |PositionDifference(a, b)| == |a| && |PositionDifference(b, a)| == |b|
  {
    assert PositionIntersection(a, b) == {} && PositionIntersection(b, a) == {};
  }

  /** Forward chaining over one pair: the informative sentences among the two
      differences and the intersection; none for cells that do not overlap. */
  function NewSentences(s: Sentence, t: Sentence): (r: Option<seq<Sentence>>)
    ensures s.positions !! t.positions ==> r == Some([])
    ensures r.Some? ==> |r.value| <= 3
    ensures r.Some? ==> forall x :: x in r.value ==>
      WellFormed(x) && !IsTrivial(x)
      && (x.positions == s.positions - t.positions
          || x.positions == t.positions - s.positions
          || x.positions == s.positions * t.positions)
  {
    var onlyThis := PositionDifference(s.positions, t.positions);
    var onlyOther := PositionDifference(t.positions, s.positions);
    if |onlyThis| == |s.positions| && |onlyOther| == |t.positions| then
      Some([])
    else
      assert onlyThis == s.positions - t.positions && onlyOther == t.positions - s.positions;
      assert !(s.positions !! t.positions) by {
        if s.positions !! t.positions {
          DisjointDifference(s.positions, t.positions);
        }
      }
      match Subtract(s, t, onlyThis, onlyOther)
      case None => None
      case Some(thisDifference) =>
        match Subtract(t, s, onlyOther, onlyThis)
        case None => None
        case Some(otherDifference) =>
          match Intersection(s, t, thisDifference, otherDifference)
          case None => None
          case Some(both) =>
            Some(KeepInformative(thisDifference, otherDifference, both))
  }

  /** Forward chaining is sound: when an assignment satisfies both sentences,
      no assertion fails and every derived sentence holds for it too. */
  lemma NewSentencesSound(a: set<nat>, s: Sentence, t: Sentence)
    requires Holds(a, s) && Holds(a, t)
    ensures NewSentences(s, t).Some?
    ensures forall x :: x in NewSentences(s, t).value ==> Holds(a, x)
  {
    var onlyThis, onlyOther := s.positions - t.positions, t.positions - s.positions;
    assert PositionDifference(s.positions, t.positions) == onlyThis;
    assert PositionDifference(t.positions, s.positions) == onlyOther;
    if !(|onlyThis| == |s.positions| && |onlyOther| == |t.positions|) {
      SubtractSound(a, s, t);
      SubtractSound(a, t, s);
      var thisDifference := Subtract(s, t, onlyThis, onlyOther).value;
      var otherDifference := Subtract(t, s, onlyOther, onlyThis).value;
      IntersectionSound(a, s, t, thisDifference, otherDifference);
      var both := Intersection(s, t, thisDifference, otherDifference).value;
      var all := KeepInformative(thisDifference, otherDifference, both);
      assert NewSentences(s, t) == Some(all);
      forall x | x in all ensures Holds(a, x) {
        assert x == thisDifference || x == otherDifference || x == both;
      }
    }
  }

  // -------------------------------------------------------------- reduction

  /** The cells `Reduce` keeps: covered, not marked as mines, not proven safe. */
  function Kept(s: Sentence, f: Facts): set<nat>
  {
    set p | p in s.positions && p in f.free && p !in f.mines && p !in f.safes
  }

  /** The covered cells `Reduce` drops because they are marked as mines. */
  function DroppedMines(s: Sentence, f: Facts): set<nat>
  {
    set p | p in s.positions && p in f.free && p in f.mines
  }

  /** Fits a sentence to what is now known: drops revealed cells, proven
      safes, and marked mines (one off each bound per mine), then clamps. */
  function Reduce(s: Sentence, f: Facts): (r: Option<Sentence>)
    ensures r.Some? ==> WellFormed(r.value)
    ensures r.Some? ==> forall p :: p in r.value.positions <==>
      p in s.positions && p in f.free && p !in f.mines && p !in f.safes
    ensures r.Some? ==> r.value.positions <= s.positions && r.value.positions <= f.free
    ensures r.Some? ==> r.value.positions !! f.mines && r.value.positions !! f.safes
    ensures WellFormed(s) ==> (r.None? <==>
      s.upper < |DroppedMines(s, f)| || s.lower - |DroppedMines(s, f)| > |Kept(s, f)|)
  {
    var positions := Kept(s, f);
    var dropped := |DroppedMines(s, f)|;
    New(positions, Max(s.lower - dropped, 0), Min(s.upper - dropped, |positions|))
  }

  /** Reduction is sound: for an assignment that satisfies the sentence and
      agrees with the facts, the reduced sentence exists and holds. */
  lemma ReduceSound(a: set<nat>, s: Sentence, f: Facts)
    requires Holds(a, s) && Consistent(a, f)
    ensures Reduce(s, f).Some? && Holds(a, Reduce(s, f).value)
  {
    var kept, dropped := Kept(s, f), DroppedMines(s, f);
    var rest := s.positions - kept - dropped;
    assert s.positions == kept + dropped + rest;
    assert kept !! dropped;
    CountSplit(a, kept + dropped, rest);
    CountSplit(a, kept, dropped);
    assert a * rest == {};
    assert a * dropped == dropped;
    CountAtMostSize(a, kept);
  }

  /** Reducing twice against the same facts is reducing once. */
  lemma ReduceIdempotent(s: Sentence, f: Facts)
    requires Reduce(s, f).Some?
    ensures Reduce(Reduce(s, f).value, f) == Reduce(s, f)
  {
    var r := Reduce(s, f).value;
    assert Kept(r, f) == r.positions;
    assert DroppedMines(r, f) == {};
  }
}
