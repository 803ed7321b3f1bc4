/**
 * The interval solver's knowledge base as a value. The functions here say
 * what adding a list of sentences, forward chaining, rebuilding and the
 * rounds of an update do to the sentences and the facts. The solver's
 * methods are proved to follow them, and each one is proved sound: a mine
 * set that satisfies what goes in satisfies what comes out.
 */
module IntervalKnowledge {
  import opened Wrappers
  import opened Board
  import opened IntervalSentence

  /** Every sentence of `ss` holds for the mine set `a`. */
  ghost predicate AllHold(a: set<nat>, ss: seq<Sentence>)
  {
    forall x :: x in ss ==> Holds(a, x)
  }

  /** Two lists of sentences that hold give a concatenation that holds. */
  lemma AllHoldAppend(a: set<nat>, us: seq<Sentence>, vs: seq<Sentence>)
    requires AllHold(a, us) && AllHold(a, vs)
    ensures AllHold(a, us + vs)
  {
    forall x | x in us + vs
      ensures Holds(a, x)
    {
      if x !in us {
        assert x in vs;
      }
    }
  }

  /** Every sentence of `kb` is well formed. */
  predicate Formed(kb: seq<Sentence>)
  {
    forall x :: x in kb ==> WellFormed(x)
  }

  /** An informative sentence that reducing against `f` leaves unchanged. */
  predicate Settled(x: Sentence, f: Facts)
  {
    WellFormed(x) && !IsTrivial(x) && Reduce(x, f) == Some(x)
  }

  /** The sentences of `ss`, in order, that are not in `kb`. */
  function NotIn(ss: seq<Sentence>, kb: seq<Sentence>): seq<Sentence>
  {
    if ss == [] then []
    else NotIn(ss[..|ss| - 1], kb) + (if ss[|ss| - 1] in kb then [] else [ss[|ss| - 1]])
  }

  /** `NotIn` keeps exactly the sentences absent from `kb`, and no more of them. */
  lemma {:induction false} NotInMembers(ss: seq<Sentence>, kb: seq<Sentence>)
    ensures forall x :: x in NotIn(ss, kb) <==> x in ss && x !in kb
    ensures |NotIn(ss, kb)| <= |ss|
  {
    if ss != [] {
      NotInMembers(ss[..|ss| - 1], kb);
      assert ss == ss[..|ss| - 1] + [ss[|ss| - 1]];
    }
  }

  // ---------------------------------------------------------------------
  // Adding sentences
  // ---------------------------------------------------------------------

  /** The knowledge base, the facts, and whether the current call has
      recorded a proven mine or safe yet. */
  datatype Progress = Progress(knowledge: seq<Sentence>, facts: Facts, added: bool)

  /** The mine set `a` agrees with the facts and satisfies every sentence. */
  ghost predicate Satisfies(a: set<nat>, p: Progress)
  {
    Consistent(a, p.facts) && AllHold(a, p.knowledge)
  }

  /** Recording a sentence's sure mines and sure safes in the facts. */
  function Learn(f: Facts, s: Sentence): Facts
  {
    Facts(f.free, f.mines + SureMines(s), f.safes + SureSafes(s))
  }

  /** Learning from a sentence that holds keeps the facts true. */
  lemma LearnSound(a: set<nat>, f: Facts, s: Sentence)
    requires Consistent(a, f) && Holds(a, s)
    ensures Consistent(a, Learn(f, s))
  {
    SureMinesAreMines(a, s);
    SureSafesAreSafe(a, s);
  }

  /** `added || record(s)`: the facts learn from `s` only while nothing has
      been recorded yet, and `added` becomes whether `s` proved anything. */
  function Note(p: Progress, s: Sentence): Progress
  {
    if p.added then p
    else Progress(p.knowledge, Learn(p.facts, s), SureMines(s) != {} || SureSafes(s) != {})
  }

  /** The index of the first sentence of `kb` over the same cells as `s`,
      or `|kb|` when there is none. */
  function FirstCompeting(kb: seq<Sentence>, s: Sentence): (i: nat)
    ensures i <= |kb|
    ensures forall k :: 0 <= k < i ==> !IsCompeting(kb[k], s)
    ensures i < |kb| ==> IsCompeting(kb[i], s)
    decreases |kb|
  {
    if kb == [] then 0
    else if IsCompeting(kb[0], s) then 0
    else 1 + FirstCompeting(kb[1..], s)
  }

  /**
   * Where an informative, reduced sentence goes. It is appended when no
   * sentence covers the same cells. When the first such sentence exists and
   * `toAdd` tells something new, that sentence is tightened. Otherwise
   * nothing changes.
   */
  function Place(p: Progress, toAdd: Sentence): (r: Result<Progress, Error>)
    requires Formed(p.knowledge) && WellFormed(toAdd)
    ensures r.Success? ==> Formed(r.value.knowledge) && r.value.facts.free == p.facts.free
  {
    var i := FirstCompeting(p.knowledge, toAdd);
    if i == |p.knowledge| then Success(p.(knowledge := p.knowledge + [toAdd]))
    else if !IsSomethingNewWith(toAdd, p.knowledge[i]) then Success(p)
    else Tightened(p, i, toAdd)
  }

  /** Entry `i` replaced by its bounds combined with `toAdd`'s and narrowed;
      a combination that breaks the bounds fails. */
  function Tightened(p: Progress, i: nat, toAdd: Sentence): (r: Result<Progress, Error>)
    requires Formed(p.knowledge) && i < |p.knowledge|
    ensures r.Success? ==> Formed(r.value.knowledge) && r.value.facts.free == p.facts.free
  {
    match Combine(p.knowledge[i], toAdd)
    case None => Failure(Inconsistent)
    case Some(combined) =>
      match Narrowed(p, combined)
      case Failure(e) => Failure(e)
      case Success(narrowed) => Success(narrowed.1.(knowledge := p.knowledge[i := narrowed.0]))
  }

  /** A combined sentence reduced, recorded and reduced again, with the
      progress after recording it; a reduction that breaks the bounds fails. */
  function Narrowed(p: Progress, combined: Sentence): (r: Result<(Sentence, Progress), Error>)
    ensures r.Success? ==> WellFormed(r.value.0) && r.value.1.knowledge == p.knowledge
    ensures r.Success? ==> r.value.1.facts.free == p.facts.free
  {
    match Reduce(combined, p.facts)
    case None => Failure(Inconsistent)
    case Some(narrowed) =>
      var p2 := Note(p, narrowed);
      match Reduce(narrowed, p2.facts)
      case None => Failure(Inconsistent)
      case Some(last) => Success((last, p2))
  }

  /** Placing a sentence that holds never fails and keeps everything true. */
  lemma PlaceSound(a: set<nat>, p: Progress, toAdd: Sentence)
    requires Formed(p.knowledge) && WellFormed(toAdd) && Satisfies(a, p) && Holds(a, toAdd)
    ensures Place(p, toAdd).Success? && Satisfies(a, Place(p, toAdd).value)
  {
    var i := FirstCompeting(p.knowledge, toAdd);
    if i < |p.knowledge| && IsSomethingNewWith(toAdd, p.knowledge[i]) {
      var known := p.knowledge[i];
      assert Holds(a, known);
      CombineSound(a, known, toAdd);
      var combined := Combine(known, toAdd).value;
      ReduceSound(a, combined, p.facts);
      var narrowed := Reduce(combined, p.facts).value;
      var p2 := Note(p, narrowed);
      if !p.added {
        LearnSound(a, p.facts, narrowed);
      }
      ReduceSound(a, narrowed, p2.facts);
      var last := Reduce(narrowed, p2.facts).value;
      assert Narrowed(p, combined) == Success((last, p2));
      assert forall x :: x in p.knowledge[i := last] ==> x == last || x in p.knowledge;
    } else {
      assert forall x :: x in p.knowledge + [toAdd] ==> x == toAdd || x in p.knowledge;
    }
  }

  /** From `p` to `q` the facts only grow, stay put once something was
      recorded, and `added` says whether anything was recorded. */
  predicate Grows(p: Progress, q: Progress)
  {
    && q.facts.free == p.facts.free
    && p.facts.mines <= q.facts.mines && p.facts.safes <= q.facts.safes
    && (p.added ==> q.facts == p.facts)
    && (q.added <==> p.added || q.facts.mines != p.facts.mines || q.facts.safes != p.facts.safes)
  }

  /** Recording a sentence over cells not yet decided grows the facts. */
  lemma NoteGrows(p: Progress, s: Sentence)
    requires s.positions !! p.facts.mines && s.positions !! p.facts.safes
    ensures Grows(p, Note(p, s))
  {
    if !p.added {
      if SureMines(s) != {} {
        var m :| m in SureMines(s);
        assert m !in p.facts.mines;
      }
      if SureSafes(s) != {} {
        var m :| m in SureSafes(s);
        assert m !in p.facts.safes;
      }
    }
  }

  /** Narrowing grows the facts and keeps within the combined cells. */
  lemma NarrowedShape(p: Progress, combined: Sentence)
    ensures Narrowed(p, combined).Success? ==>
      Grows(p, Narrowed(p, combined).value.1) && Narrowed(p, combined).value.0.positions <= combined.positions
  {
    if Reduce(combined, p.facts).Some? {
      NoteGrows(p, Reduce(combined, p.facts).value);
    }
  }

  /** Tightening grows the facts and only narrows entry `i`. */
  lemma TightenedShape(p: Progress, i: nat, toAdd: Sentence)
    requires Formed(p.knowledge) && i < |p.knowledge|
    ensures var r := Tightened(p, i, toAdd);
      r.Success? ==> (Grows(p, r.value) && |r.value.knowledge| == |p.knowledge| &&
        forall k :: 0 <= k < |p.knowledge| && r.value.knowledge[k] != p.knowledge[k] ==>
          r.value.knowledge[k].positions <= p.knowledge[k].positions)
  {
    if Combine(p.knowledge[i], toAdd).Some? {
      NarrowedShape(p, Combine(p.knowledge[i], toAdd).value);
    }
  }

  /** Placing appends `toAdd` when no entry competes with it, and otherwise
      only narrows an entry; the facts grow. */
  lemma PlaceShape(p: Progress, toAdd: Sentence)
    requires Formed(p.knowledge) && WellFormed(toAdd)
    ensures var r := Place(p, toAdd);
      r.Success? ==> (Grows(p, r.value) && |p.knowledge| <= |r.value.knowledge| <= |p.knowledge| + 1 &&
        (|r.value.knowledge| > |p.knowledge| ==> (r.value.knowledge == p.knowledge + [toAdd] &&
          forall k :: 0 <= k < |p.knowledge| ==> !IsCompeting(p.knowledge[k], toAdd))) &&
        (|r.value.knowledge| == |p.knowledge| ==>
          forall k :: 0 <= k < |p.knowledge| && r.value.knowledge[k] != p.knowledge[k] ==>
            r.value.knowledge[k].positions <= p.knowledge[k].positions))
  {
    var i := FirstCompeting(p.knowledge, toAdd);
    if i < |p.knowledge| && IsSomethingNewWith(toAdd, p.knowledge[i]) {
      TightenedShape(p, i, toAdd);
    }
  }

  /**
   * One sentence of `addSentences`. It is reduced against the facts and
   * dropped if that leaves nothing. Otherwise its sure cells are recorded,
   * it is reduced again and, unless that leaves nothing, placed.
   */
  function AddStep(p: Progress, s: Sentence): (r: Result<Progress, Error>)
    requires Formed(p.knowledge)
    ensures r.Success? ==> Formed(r.value.knowledge) && r.value.facts.free == p.facts.free
  {
    match Reduce(s, p.facts)
    case None => Failure(Inconsistent)
    case Some(first) =>
      if IsTrivial(first) then Success(p)
      else
        var p1 := Note(p, first);
        match Reduce(first, p1.facts)
        case None => Failure(Inconsistent)
        case Some(toAdd) => if IsTrivial(toAdd) then Success(p1) else Place(p1, toAdd)
  }

  /** Adding a sentence that holds never fails and keeps everything true. */
  lemma AddStepSound(a: set<nat>, p: Progress, s: Sentence)
    requires Formed(p.knowledge) && Satisfies(a, p) && Holds(a, s)
    ensures AddStep(p, s).Success? && Satisfies(a, AddStep(p, s).value)
  {
    ReduceSound(a, s, p.facts);
    var first := Reduce(s, p.facts).value;
    if !IsTrivial(first) {
      var p1 := Note(p, first);
      if !p.added {
        LearnSound(a, p.facts, first);
      }
      ReduceSound(a, first, p1.facts);
      var toAdd := Reduce(first, p1.facts).value;
      if !IsTrivial(toAdd) {
        PlaceSound(a, p1, toAdd);
      }
    }
  }

  /** One added sentence: the facts grow, and the knowledge base either
      gains one informative sentence over cells of `s` that no entry
      competes with, or keeps its length with entries only narrowed. */
  lemma AddStepShape(p: Progress, s: Sentence)
    requires Formed(p.knowledge)
    ensures var r := AddStep(p, s); var n := |p.knowledge|;
      r.Success? ==> (Grows(p, r.value) && n <= |r.value.knowledge| <= n + 1 &&
        (|r.value.knowledge| > n ==> (
          && r.value.knowledge[..n] == p.knowledge
          && !IsTrivial(r.value.knowledge[n])
          && r.value.knowledge[n].positions <= s.positions
          && forall k :: 0 <= k < n ==> !IsCompeting(p.knowledge[k], r.value.knowledge[n]))) &&
        (|r.value.knowledge| == n ==>
          forall k :: 0 <= k < n && r.value.knowledge[k] != p.knowledge[k] ==>
            r.value.knowledge[k].positions <= p.knowledge[k].positions))
  {
    if Reduce(s, p.facts).Some? && !IsTrivial(Reduce(s, p.facts).value) {
      var first := Reduce(s, p.facts).value;
      var p1 := Note(p, first);
      NoteGrows(p, first);
      if Reduce(first, p1.facts).Some? && !IsTrivial(Reduce(first, p1.facts).value) {
        var toAdd := Reduce(first, p1.facts).value;
        PlaceShape(p1, toAdd);
        if Place(p1, toAdd).Success? && |Place(p1, toAdd).value.knowledge| > |p.knowledge| {
          assert Place(p1, toAdd).value.knowledge[..|p.knowledge|] == p.knowledge;
        }
      }
    }
  }

  /** `addSentences`: the sentences added one after another, in order; the
      first failure ends it. */
  function AddAll(p: Progress, ss: seq<Sentence>): (r: Result<Progress, Error>)
    requires Formed(p.knowledge)
    ensures r.Success? ==> Formed(r.value.knowledge) && r.value.facts.free == p.facts.free
    decreases |ss|
  {
    if ss == [] then Success(p)
    else
      match AddStep(p, ss[0])
      case Failure(e) => Failure(e)
      case Success(q) => AddAll(q, ss[1..])
  }

  /** Adding sentences that all hold never fails and keeps everything true. */
  lemma {:induction false} AddAllSound(a: set<nat>, p: Progress, ss: seq<Sentence>)
    requires Formed(p.knowledge) && Satisfies(a, p) && AllHold(a, ss)
    ensures AddAll(p, ss).Success? && Satisfies(a, AddAll(p, ss).value)
    decreases |ss|
  {
    if ss != [] {
      AddStepSound(a, p, ss[0]);
      AddAllSound(a, AddStep(p, ss[0]).value, ss[1..]);
    }
  }

  // ---------------------------------------------------------------------
  // Forward chaining
  // ---------------------------------------------------------------------

  /** Each sentence of `ps` reduced against `f`, in order, dropping those
      that become trivial; a reduction that breaks the bounds fails. */
  function ReduceAll(ps: seq<Sentence>, f: Facts): Result<seq<Sentence>, Error>
    decreases |ps|
  {
    if ps == [] then Success([])
    else
      match Reduce(ps[0], f)
      case None => Failure(Inconsistent)
      case Some(x) => Prepend(if IsTrivial(x) then [] else [x], ReduceAll(ps[1..], f))
  }

  /** `ReduceAll` fails exactly when some reduction does, and keeps exactly
      the informative reductions, each settled. */
  lemma {:induction false} ReduceAllMembers(ps: seq<Sentence>, f: Facts)
    ensures ReduceAll(ps, f).Success? <==> forall y :: y in ps ==> Reduce(y, f).Some?
    ensures ReduceAll(ps, f).Success? ==> forall x ::
      x in ReduceAll(ps, f).value <==> exists y :: y in ps && Reduce(y, f) == Some(x) && !IsTrivial(x)
    ensures ReduceAll(ps, f).Success? ==> forall x :: x in ReduceAll(ps, f).value ==> Settled(x, f)
    decreases |ps|
  {
    if ps != [] {
      ReduceAllMembers(ps[1..], f);
      assert forall y :: y in ps <==> y == ps[0] || y in ps[1..];
      if Reduce(ps[0], f).Some? {
        ReduceIdempotent(ps[0], f);
      }
    }
  }

  /** `newSentences(s, t)` with each result reduced and the trivial ones
      dropped: what forward chaining takes from one ordered pair. */
  function PairChain(s: Sentence, t: Sentence, f: Facts): Result<seq<Sentence>, Error>
  {
    match NewSentences(s, t)
    case None => Failure(Inconsistent)
    case Some(ps) => ReduceAll(ps, f)
  }

  /** Chaining two sentences that hold never fails and gives sentences that hold. */
  lemma PairChainSound(a: set<nat>, s: Sentence, t: Sentence, f: Facts)
    requires Consistent(a, f) && Holds(a, s) && Holds(a, t)
    ensures PairChain(s, t, f).Success? && AllHold(a, PairChain(s, t, f).value)
  {
    NewSentencesSound(a, s, t);
    var ps := NewSentences(s, t).value;
    ReduceAllMembers(ps, f);
    forall y | y in ps
      ensures Reduce(y, f).Some? && Holds(a, Reduce(y, f).value)
    {
      ReduceSound(a, y, f);
    }
  }

  /** What one ordered pair of sentences derives. */
  type Derive = (Sentence, Sentence) -> Result<seq<Sentence>, Error>

  /** `PairChain` against fixed facts. */
  function PairsAgainst(f: Facts): Derive
  {
    (s, t) => PairChain(s, t, f)
  }

  /** The pairs `(kb[i], kb[j])` for `j` from `j0` on, skipping `j == i`. */
  function RowChain(kb: seq<Sentence>, pair: Derive, i: nat, j0: nat): Result<seq<Sentence>, Error>
    requires i < |kb|
    decreases |kb| - j0
  {
    if j0 >= |kb| then Success([])
    else if j0 == i then RowChain(kb, pair, i, j0 + 1)
    else Join(pair(kb[i], kb[j0]), RowChain(kb, pair, i, j0 + 1))
  }

  /** The rows of pairs from row `i0` on. */
  function ChainFrom(kb: seq<Sentence>, pair: Derive, i0: nat): Result<seq<Sentence>, Error>
    decreases |kb| - i0
  {
    if i0 >= |kb| then Success([])
    else Join(RowChain(kb, pair, i0, 0), ChainFrom(kb, pair, i0 + 1))
  }

  /** `forwardChain`: the informative reductions of what every ordered pair of
      distinct entries derives, in order, less what `kb` already holds. */
  function Chained(kb: seq<Sentence>, f: Facts): Result<seq<Sentence>, Error>
  {
    match ChainFrom(kb, PairsAgainst(f), 0)
    case Failure(e) => Failure(e)
    case Success(xs) => Success(NotIn(xs, kb))
  }

  /** A row of chaining fails exactly when one of its pairs does. */
  lemma {:induction false} RowChainSucceeds(kb: seq<Sentence>, pair: Derive, i: nat, j0: nat)
    requires i < |kb|
    ensures RowChain(kb, pair, i, j0).Success? <==>
      forall j :: j0 <= j < |kb| && j != i ==> pair(kb[i], kb[j]).Success?
    decreases |kb| - j0
  {
    if j0 < |kb| {
      RowChainSucceeds(kb, pair, i, j0 + 1);
    }
  }

  /** A row of chaining holds exactly the sentences of its pairs. */
  lemma {:induction false} RowChainMembers(kb: seq<Sentence>, pair: Derive, i: nat, j0: nat)
    requires i < |kb|
    ensures RowChain(kb, pair, i, j0).Success? ==> forall x ::
      x in RowChain(kb, pair, i, j0).value <==>
      exists j :: j0 <= j < |kb| && j != i && pair(kb[i], kb[j]).Success? && x in pair(kb[i], kb[j]).value
    decreases |kb| - j0
  {
    if j0 < |kb| {
      RowChainMembers(kb, pair, i, j0 + 1);
    }
  }

  /** Which pairs chaining covers from row `i0` on: it fails exactly when
      one of them does, and holds exactly their sentences. */
  lemma {:induction false} ChainFromMembers(kb: seq<Sentence>, pair: Derive, i0: nat)
    ensures ChainFrom(kb, pair, i0).Success? <==>
      forall i, j :: i0 <= i < |kb| && 0 <= j < |kb| && j != i ==> pair(kb[i], kb[j]).Success?
    ensures ChainFrom(kb, pair, i0).Success? ==> forall x ::
      x in ChainFrom(kb, pair, i0).value <==>
      exists i, j :: i0 <= i < |kb| && 0 <= j < |kb| && j != i && pair(kb[i], kb[j]).Success? && x in pair(kb[i], kb[j]).value
    decreases |kb| - i0
  {
    if i0 < |kb| {
      RowChainSucceeds(kb, pair, i0, 0);
      RowChainMembers(kb, pair, i0, 0);
      ChainFromMembers(kb, pair, i0 + 1);
    }
  }

  /** Forward chaining fails exactly when some ordered pair of distinct
      entries does, and derives exactly the informative reductions of what
      those pairs give, less what is known. */
  lemma ChainedMembers(kb: seq<Sentence>, f: Facts)
    ensures Chained(kb, f).Success? <==>
      forall i, j :: 0 <= i < |kb| && 0 <= j < |kb| && j != i ==> PairChain(kb[i], kb[j], f).Success?
    ensures Chained(kb, f).Success? ==> forall x ::
      x in Chained(kb, f).value <==> (x !in kb &&
      exists i, j :: 0 <= i < |kb| && 0 <= j < |kb| && j != i && PairChain(kb[i], kb[j], f).Success? && x in PairChain(kb[i], kb[j], f).value)
  {
    ChainFromMembers(kb, PairsAgainst(f), 0);
    if ChainFrom(kb, PairsAgainst(f), 0).Success? {
      NotInMembers(ChainFrom(kb, PairsAgainst(f), 0).value, kb);
    }
  }

  /** Chaining derives nothing the knowledge base already holds. */
  lemma ChainedFresh(kb: seq<Sentence>, f: Facts)
    ensures Chained(kb, f).Success? ==> forall x :: x in Chained(kb, f).value ==> x !in kb
  {
    if ChainFrom(kb, PairsAgainst(f), 0).Success? {
      NotInMembers(ChainFrom(kb, PairsAgainst(f), 0).value, kb);
    }
  }

  /** Chaining a knowledge base that holds never fails, and every derived
      sentence holds. */
  lemma ChainedSound(a: set<nat>, kb: seq<Sentence>, f: Facts)
    requires Consistent(a, f) && AllHold(a, kb)
    ensures Chained(kb, f).Success? && AllHold(a, Chained(kb, f).value)
  {
    forall i, j | 0 <= i < |kb| && 0 <= j < |kb| && j != i
      ensures PairChain(kb[i], kb[j], f).Success? && AllHold(a, PairChain(kb[i], kb[j], f).value)
    {
      PairChainSound(a, kb[i], kb[j], f);
    }
    ChainedMembers(kb, f);
  }

  /** Every sentence chaining derives is settled against the facts. */
  lemma ChainedSettled(kb: seq<Sentence>, f: Facts)
    ensures Chained(kb, f).Success? ==> forall x :: x in Chained(kb, f).value ==> Settled(x, f)
  {
    ChainedMembers(kb, f);
    forall i, j | 0 <= i < |kb| && 0 <= j < |kb| && j != i && PairChain(kb[i], kb[j], f).Success?
      ensures forall x :: x in PairChain(kb[i], kb[j], f).value ==> Settled(x, f)
    {
      ReduceAllMembers(NewSentences(kb[i], kb[j]).value, f);
    }
  }

  // ---------------------------------------------------------------------
  // Cleanup and the rounds of an update
  // ---------------------------------------------------------------------

  /** `cleanup`: the knowledge base emptied and its sentences added back
      against the same facts, then chained; the result is the new state with
      the sentences chaining derived. */
  function Rebuilt(kb: seq<Sentence>, f: Facts): (r: Result<(Progress, seq<Sentence>), Error>)
    ensures r.Success? ==> Formed(r.value.0.knowledge) && r.value.0.facts.free == f.free
  {
    match AddAll(Progress([], f, false), kb)
    case Failure(e) => Failure(e)
    case Success(p) =>
      match Chained(p.knowledge, p.facts)
      case Failure(e) => Failure(e)
      case Success(next) => Success((p, next))
  }

  /** Rebuilding a knowledge base that holds never fails, keeps it true, and
      derives sentences that hold. */
  lemma RebuiltSound(a: set<nat>, kb: seq<Sentence>, f: Facts)
    requires Consistent(a, f) && AllHold(a, kb)
    ensures Rebuilt(kb, f).Success?
    ensures Satisfies(a, Rebuilt(kb, f).value.0) && AllHold(a, Rebuilt(kb, f).value.1)
  {
    AddAllSound(a, Progress([], f, false), kb);
    var p := AddAll(Progress([], f, false), kb).value;
    ChainedSound(a, p.knowledge, p.facts);
  }

  /**
   * The loop of `update`: while something new was recorded or sentences are
   * waiting, and the time budget `fuel` lasts, the waiting sentences are
   * added to `kb` and the knowledge base is cleaned up. The sentences
   * chaining derived wait for the next round. It goes on when either step
   * recorded a mine or a safe. The result's `added` is whether it would
   * have gone on.
   */
  function Rounds(kb: seq<Sentence>, f: Facts, news: seq<Sentence>, going: bool, fuel: nat): Result<Progress, Error>
    requires Formed(kb)
    decreases fuel
  {
    if !(going || |news| > 0) || fuel == 0 then Success(Progress(kb, f, going))
    else
      match AddAll(Progress(kb, f, false), news)
      case Failure(e) => Failure(e)
      case Success(q) =>
        match Rebuilt(q.knowledge, q.facts)
        case Failure(e) => Failure(e)
        case Success(rebuilt) =>
          Rounds(rebuilt.0.knowledge, rebuilt.0.facts, rebuilt.1, q.added || rebuilt.0.added, fuel - 1)
  }

  /** The rounds of an update never fail on sentences that some mine set
      satisfies, and it still satisfies the result. */
  lemma {:induction false} RoundsSound(a: set<nat>, kb: seq<Sentence>, f: Facts, news: seq<Sentence>, going: bool, fuel: nat)
    requires Formed(kb) && Consistent(a, f) && AllHold(a, kb) && AllHold(a, news)
    ensures Rounds(kb, f, news, going, fuel).Success? && Satisfies(a, Rounds(kb, f, news, going, fuel).value)
    decreases fuel
  {
    if (going || |news| > 0) && fuel > 0 {
      AddAllSound(a, Progress(kb, f, false), news);
      var q := AddAll(Progress(kb, f, false), news).value;
      RebuiltSound(a, q.knowledge, q.facts);
      var rebuilt := Rebuilt(q.knowledge, q.facts).value;
      RoundsSound(a, rebuilt.0.knowledge, rebuilt.0.facts, rebuilt.1, q.added || rebuilt.0.added, fuel - 1);
    }
  }

  /** One round of `Rounds`, when it runs: it fails where adding the
      sentences or rebuilding fails, and goes on from the rebuilt base. */
  lemma RoundsStep(kb: seq<Sentence>, f: Facts, news: seq<Sentence>, going: bool, fuel: nat, rest: nat)
    requires Formed(kb) && (going || |news| > 0) && fuel == rest + 1
    ensures AddAll(Progress(kb, f, false), news).Failure? ==> Rounds(kb, f, news, going, fuel).Failure?
    ensures AddAll(Progress(kb, f, false), news).Success? ==>
      var q := AddAll(Progress(kb, f, false), news).value;
      (Rebuilt(q.knowledge, q.facts).Failure? ==> Rounds(kb, f, news, going, fuel).Failure?) &&
      (Rebuilt(q.knowledge, q.facts).Success? ==>
        var rebuilt := Rebuilt(q.knowledge, q.facts).value;
        Rounds(kb, f, news, going, fuel) ==
        Rounds(rebuilt.0.knowledge, rebuilt.0.facts, rebuilt.1, q.added || rebuilt.0.added, rest))
  {
    assert fuel - 1 == rest;
  }
}
