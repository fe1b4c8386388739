/** The exact-place analysis of the statement checker, against the runs of a program. */
module PlaceFlow {
  import opened PlaceRuns
  import opened PlaceState
  import opened Types

  // ---------------------------------------------------------------- the analysis

  /** The facts of the local and its Moved flag. */
  datatype Flow = Flow(facts: Exact, moved: bool)

  predicate HasPart(f: Flow, kind: ProjectionKind, k: bv64) {
    Admits(f.facts.plan, kind, k)
  }

  function PartFact(f: Flow, kind: ProjectionKind, k: bv64): Fact {
    ProjectionFact(f.facts, kind, k)
  }

  /** The facts keep account of the whole and of the slots of the eligible projections. */
  predicate Tracks(f: Flow, c: Cell) {
    c.Whole? || (c.Slot? && HasPart(f, c.kind, c.k))
  }

  function FactOf(f: Flow, c: Cell): Fact {
    if c.Whole? then f.facts.whole else PartFact(f, c.kind, c.k)
  }

  /** Which statements pass without a diagnostic. A projection is assigned unless the local is certainly
      moved; it is moved out only if the plan has it. An array element is moved out without a look at
      the array as a whole. */
  predicate Accepts(op: Op, f: Flow) {
    match op
    case Init => f.facts.whole == Only(State.Never)
    case Move => IsDefinitelyLive(f.facts)
    case Assign => !Has(f.facts.whole, State.Never)
    case Put(_, _) => !Has(f.facts.whole, State.Never) && f.facts.whole != Only(Moved)
    case Take(kind, k) =>
      && CanProject(f.facts, kind, k, Moved)
      && ProjectionFact(f.facts, kind, k) == Only(Live)
      && (kind.DirectField? ==> !Has(f.facts.whole, Moved))
  }

  function Step(op: Op, f: Flow): Option<Flow> {
    if !Accepts(op, f) then None
    else
      match op
      case Init => Some(f.(facts := Repopulated(f.facts.(whole := Only(Live)))))
      case Move => Some(Flow(f.facts.(whole := Only(Moved)), true))
      case Assign =>
        if f.facts.whole == Only(Moved) then Some(Flow(Repopulated(f.facts.(whole := Only(Live))), false))
        else Some(f.(facts := Repopulated(f.facts)))
      case Put(kind, k) =>
        Some(if CanProject(f.facts, kind, k, Live) then f.(facts := Project(f.facts, k, Live)) else f)
      case Take(_, k) => Some(f.(facts := Project(f.facts, k, Moved)))
  }

  function JoinFlow(f: Flow, g: Flow): Flow {
    Flow(Join(f.facts, g.facts), f.moved || g.moved)
  }

  /** A loop body is analysed once, from the facts before the loop. These are joined in after it for the
      locals of the block the loop stands in, and for no others: own says that the local is declared in
      the block whose statements p is. For a uniquely owned local that was not moved before, a body
      after which it may be moved is rejected. */
  function Analyse(p: Program, f: Flow, unique: bool, own: bool): Option<Flow> {
    match p
    case Skip => Some(f)
    case Do(op) => Step(op, f)
    case Seq(first, second) =>
      var mid := Analyse(first, f, unique, own);
      if mid.None? then None else Analyse(second, mid.value, unique, own)
    case If(yes, no) =>
      var left, right := Analyse(yes, f, unique, false), Analyse(no, f, unique, false);
      if left.None? || right.None? then None else Some(JoinFlow(left.value, right.value))
    case Block(body) => Analyse(body, f, unique, false)
    case Loop(body) =>
      var after := Analyse(body, f, unique, false);
      if after.None? || (unique && !f.moved && Has(after.value.facts.whole, Moved)) then None
      else if own then Some(JoinFlow(f, after.value))
      else after
  }

  // ---------------------------------------------------------------- what the analysis keeps

  /** A reachable place: its facts are complete and the flag says whether it may be moved. */
  predicate Reachable(f: Flow) {
    Valid(f.facts) && !IsEmpty(f.facts) && (f.moved <==> Has(f.facts.whole, Moved))
  }

  lemma FactsAreFull(f: Flow, c: Cell)
    requires Reachable(f) && Tracks(f, c)
    ensures FactOf(f, c) != BOTTOM
  {
    if c.Slot? {
      CoveredIff(f.facts.parts);
    }
  }

  lemma JoinReachable(f: Flow, g: Flow)
    requires Reachable(f) && Reachable(g) && f.facts.plan == g.facts.plan
    ensures Reachable(JoinFlow(f, g)) && JoinFlow(f, g).facts.plan == f.facts.plan
    ensures forall c | Tracks(f, c) :: FactOf(JoinFlow(f, g), c) == Union(FactOf(f, c), FactOf(g, c))
  {
    JoinIsValid(f.facts, g.facts);
    UnionOfFull(f.facts.whole, g.facts.whole);
    forall c | Tracks(f, c)
      ensures FactOf(JoinFlow(f, g), c) == Union(FactOf(f, c), FactOf(g, c))
    {
      if c.Slot? {
        FactAtJoin(f.facts.parts, g.facts.parts, c.k);
      }
    }
  }

  lemma StepReachable(op: Op, f: Flow)
    requires Reachable(f) && Step(op, f).Some?
    ensures Reachable(Step(op, f).value) && Step(op, f).value.facts.plan == f.facts.plan
  {
    var e := f.facts;
    match op
    case Init => ValidKept(e.(whole := Only(Live)), e.plan, {}, NoProjection, 0, Live, e.whole);
    case Move => ValidKept(e, e.plan, {}, NoProjection, 0, Live, Only(Moved));
    case Assign =>
      ValidKept(e.(whole := Only(Live)), e.plan, {}, NoProjection, 0, Live, e.whole);
      ValidKept(e, e.plan, {}, NoProjection, 0, Live, e.whole);
    case Put(kind, k) => ValidKept(e, e.plan, {}, kind, k, Live, e.whole);
    case Take(kind, k) => ValidKept(e, e.plan, {}, kind, k, Moved, e.whole);
  }

  /** Along every program the facts stay complete, the plan stays the same, and the Moved flag says
      exactly whether the local may be moved. */
  lemma {:induction false} AnalyseKeeps(p: Program, f: Flow, unique: bool, own: bool)
    requires Reachable(f) && Analyse(p, f, unique, own).Some?
    ensures var out := Analyse(p, f, unique, own).value; Reachable(out) && out.facts.plan == f.facts.plan
  {
    match p
    case Skip =>
    case Do(op) => StepReachable(op, f);
    case Seq(first, second) =>
      AnalyseKeeps(first, f, unique, own);
      AnalyseKeeps(second, Analyse(first, f, unique, own).value, unique, own);
    case If(yes, no) =>
      AnalyseKeeps(yes, f, unique, false);
      AnalyseKeeps(no, f, unique, false);
      JoinReachable(Analyse(yes, f, unique, false).value, Analyse(no, f, unique, false).value);
    case Block(body) => AnalyseKeeps(body, f, unique, false);
    case Loop(body) =>
      AnalyseKeeps(body, f, unique, false);
      JoinReachable(f, Analyse(body, f, unique, false).value);
  }

  /** What one statement does to the facts of a cell: exactly what it does to the states in them, but for
      an assignment to a local that may be live or moved, whose fact stays. */
  lemma StepFact(op: Op, f: Flow, c: Cell)
    requires Reachable(f) && Step(op, f).Some? && Tracks(f, c)
    ensures FactOf(Step(op, f).value, c) ==
      if c.Whole? && op.Assign? && f.facts.whole == Fact(false, true, true) then f.facts.whole
      else Image(op, c, FactOf(f, c))
  {
    FactsAreFull(f, c);
    if c.Slot? {
      var e := f.facts;
      if op.Put? || op.Take? {
        FactAtSet(e.parts, op.k, if op.Put? then Live else Moved, c.k);
      }
      PlannedIsCovered(e.plan, e.plan.eligible);
    }
  }

  /** Every cell is found as the statement expects it. */
  ghost predicate AsExpected(op: Op, f: Flow) {
    forall c: Cell | Tracks(f, c) :: Within(FactOf(f, c), Expects(op, c))
  }

  /** A construction, a move and an assignment pass exactly when every state that the facts leave open is
      an expected one. To assign a projection some state of the local must be an expected one, and none
      may be unconstructed. To move one out it must be live, and behind a field the local not moved. */
  lemma AcceptsIff(op: Op, f: Flow)
    requires Reachable(f)
    ensures op.Init? || op.Move? || op.Assign? ==> (Accepts(op, f) <==> AsExpected(op, f))
    ensures op.Put? ==>
      (Accepts(op, f) <==> Has(f.facts.whole, Live) && !Has(f.facts.whole, State.Never))
    ensures op.Take? ==>
      (Accepts(op, f) <==>
        && HasPart(f, op.kind, op.k)
        && Within(PartFact(f, op.kind, op.k), Expects(op, Slot(op.kind, op.k)))
        && (op.kind.DirectField? ==> !Has(f.facts.whole, Moved)))
  {
    if op.Take? && HasPart(f, op.kind, op.k) {
      FactsAreFull(f, Slot(op.kind, op.k));
      var part := PartFact(f, op.kind, op.k);
      assert Has(part, State.Never) || Has(part, Moved) || part == Only(Live);
    } else if op.Init? || op.Move? || op.Assign? {
      assert Tracks(f, Whole);
      if Accepts(op, f) {
        forall c: Cell | Tracks(f, c)
          ensures Within(FactOf(f, c), Expects(op, c))
        {
          StepSafe(op, f, c);
        }
      } else if AsExpected(op, f) {
        var c := StepRejected(op, f);
        assert false;
      }
    }
  }

  // ---------------------------------------------------------------- when the facts hold

  /** Every state that g records is recorded by h. */
  ghost predicate Includes(h: Flow, g: Flow) {
    forall c: Cell | Tracks(g, c) :: Within(FactOf(g, c), FactOf(h, c))
  }

  /** Where the facts before a loop are not joined in after it, the facts after its body include them. */
  ghost predicate Covers(p: Program, f: Flow, unique: bool, own: bool) {
    match p
    case Skip => true
    case Do(op) => true
    case Seq(first, second) =>
      var mid := Analyse(first, f, unique, own);
      Covers(first, f, unique, own) && (mid.Some? ==> Covers(second, mid.value, unique, own))
    case If(yes, no) => Covers(yes, f, unique, false) && Covers(no, f, unique, false)
    case Block(body) => Covers(body, f, unique, false)
    case Loop(body) =>
      var after := Analyse(body, f, unique, false);
      Covers(body, f, unique, false) && (!own && after.Some? ==> Includes(after.value, f))
  }

  /** Every run of an accepted program ends within the computed facts, in every tracked cell. */
  ghost predicate Holds(p: Program, f: Flow, unique: bool, own: bool) {
    Analyse(p, f, unique, own).Some? ==>
      forall c: Cell, r: Run, s: State | Tracks(f, c) && Fits(p, r) && Has(FactOf(f, c), s) ::
        Has(FactOf(Analyse(p, f, unique, own).value, c), After(r, c, s))
  }

  /** The same for every statement in it, from the facts it is analysed with. */
  ghost predicate HoldsThroughout(p: Program, f: Flow, unique: bool, own: bool) {
    && Holds(p, f, unique, own)
    && match p
       case Skip => true
       case Do(op) => true
       case Seq(first, second) =>
         var mid := Analyse(first, f, unique, own);
         HoldsThroughout(first, f, unique, own) && (mid.Some? ==> HoldsThroughout(second, mid.value, unique, own))
       case If(yes, no) => HoldsThroughout(yes, f, unique, false) && HoldsThroughout(no, f, unique, false)
       case Block(body) => HoldsThroughout(body, f, unique, false)
       case Loop(body) => HoldsThroughout(body, f, unique, false)
  }

  /** The computed facts include every state that can be reached. */
  lemma {:induction false} FactsInclude(p: Program, f: Flow, unique: bool, own: bool, c: Cell)
    requires Reachable(f) && Analyse(p, f, unique, own).Some? && Covers(p, f, unique, own) && Tracks(f, c)
    ensures Within(Reach(p, c, FactOf(f, c)), FactOf(Analyse(p, f, unique, own).value, c))
  {
    match p
    case Skip =>
    case Do(op) => StepFact(op, f, c);
    case Seq(first, second) =>
      var mid := Analyse(first, f, unique, own).value;
      AnalyseKeeps(first, f, unique, own);
      FactsInclude(first, f, unique, own, c);
      FactsInclude(second, mid, unique, own, c);
      ReachMonotone(second, c, Reach(first, c, FactOf(f, c)), FactOf(mid, c));
    case If(yes, no) =>
      AnalyseKeeps(yes, f, unique, false);
      AnalyseKeeps(no, f, unique, false);
      FactsInclude(yes, f, unique, false, c);
      FactsInclude(no, f, unique, false, c);
      JoinReachable(Analyse(yes, f, unique, false).value, Analyse(no, f, unique, false).value);
    case Block(body) => FactsInclude(body, f, unique, false, c);
    case Loop(body) =>
      AnalyseKeeps(body, f, unique, false);
      FactsInclude(body, f, unique, false, c);
      JoinReachable(f, Analyse(body, f, unique, false).value);
  }

  lemma SlotsSound(p: Program, f: Flow, unique: bool, own: bool, c: Cell, r: Run, s: State)
    requires Reachable(f) && Analyse(p, f, unique, own).Some? && Covers(p, f, unique, own)
    requires Tracks(f, c) && Fits(p, r) && Has(FactOf(f, c), s)
    ensures Has(FactOf(Analyse(p, f, unique, own).value, c), After(r, c, s))
  {
    FactsInclude(p, f, unique, own, c);
    ReachSound(p, c, FactOf(f, c), r, s);
  }

  /** What the facts say of a place: the state of the whole is among them, and while it is live so is the
      state of each eligible projection. The parts of a local that is not live have no state of their own. */
  predicate Describes(f: Flow, kind: ProjectionKind, k: bv64, w: State, s: State) {
    Has(f.facts.whole, w) && (HasPart(f, kind, k) && w.Live? ==> Has(PartFact(f, kind, k), s))
  }

  function SomeState(f: Fact): State {
    if f.never then State.Never else if f.live then Live else Moved
  }

  /** A state the slot may be in, equal to that of the projection while the whole is live. */
  lemma SlotState(f: Flow, kind: ProjectionKind, k: bv64, w: State, s: State) returns (t: State)
    requires Reachable(f) && HasPart(f, kind, k) && Describes(f, kind, k, w, s)
    ensures Has(PartFact(f, kind, k), t) && (w.Live? ==> s == t)
  {
    FactsAreFull(f, Slot(kind, k));
    t := if w.Live? then s else SomeState(PartFact(f, kind, k));
  }

  /** For every accepted program whose unjoined loops are covered, every run and every projection, the
      facts describe the place after the run as they described it before, although loop bodies are
      analysed only once. */
  lemma FactsSound(p: Program, f: Flow, unique: bool, own: bool, kind: ProjectionKind, k: bv64,
                   r: Run, w: State, s: State)
    requires Reachable(f) && Analyse(p, f, unique, own).Some? && Covers(p, f, unique, own)
    requires Fits(p, r) && Describes(f, kind, k, w, s)
    ensures Describes(Analyse(p, f, unique, own).value, kind, k, After(r, Whole, w), After(r, Part(kind, k), s))
  {
    SlotsSound(p, f, unique, own, Whole, r, w);
    AnalyseKeeps(p, f, unique, own);
    if HasPart(f, kind, k) {
      var t := SlotState(f, kind, k, w, s);
      SlotsSound(p, f, unique, own, Slot(kind, k), r, t);
      SlotIsPart(r, kind, k, w, s, t);
    }
  }

  lemma CoveredHolds(p: Program, f: Flow, unique: bool, own: bool)
    requires Reachable(f) && Covers(p, f, unique, own)
    ensures Holds(p, f, unique, own)
  {
    if Analyse(p, f, unique, own).Some? {
      forall c: Cell, r: Run, s: State | Tracks(f, c) && Fits(p, r) && Has(FactOf(f, c), s)
        ensures Has(FactOf(Analyse(p, f, unique, own).value, c), After(r, c, s))
      {
        SlotsSound(p, f, unique, own, c, r, s);
      }
    }
  }

  /** The run with no rounds: what holds after a loop includes what held before it. */
  lemma UnjoinedIncludes(body: Program, f: Flow, unique: bool)
    requires Analyse(Loop(body), f, unique, false).Some? && Holds(Loop(body), f, unique, false)
    ensures Includes(Analyse(body, f, unique, false).value, f)
  {
    forall c: Cell, s: State | Tracks(f, c) && Has(FactOf(f, c), s)
      ensures Has(FactOf(Analyse(body, f, unique, false).value, c), s)
    {
      assert Fits(Loop(body), Rounds([])) && After(Rounds([]), c, s) == s;
    }
  }

  /** The facts of an accepted program hold throughout exactly when every unjoined loop is covered. */
  lemma {:induction false} HoldsIff(p: Program, f: Flow, unique: bool, own: bool)
    requires Reachable(f) && Analyse(p, f, unique, own).Some?
    ensures HoldsThroughout(p, f, unique, own) <==> Covers(p, f, unique, own)
  {
    if Covers(p, f, unique, own) {
      CoveredHolds(p, f, unique, own);
    }
    match p
    case Skip =>
    case Do(op) =>
    case Seq(first, second) =>
      AnalyseKeeps(first, f, unique, own);
      HoldsIff(first, f, unique, own);
      HoldsIff(second, Analyse(first, f, unique, own).value, unique, own);
    case If(yes, no) =>
      HoldsIff(yes, f, unique, false);
      HoldsIff(no, f, unique, false);
    case Block(body) => HoldsIff(body, f, unique, false);
    case Loop(body) =>
      HoldsIff(body, f, unique, false);
      if !own && HoldsThroughout(p, f, unique, own) {
        UnjoinedIncludes(body, f, unique);
      }
  }

  /** At the end of a program alone: its facts hold there exactly when they include the states that one
      pass joining at every loop computes. */
  lemma HoldsAtEndIff(p: Program, f: Flow, unique: bool, own: bool)
    requires Analyse(p, f, unique, own).Some?
    ensures Holds(p, f, unique, own) <==>
      forall c | Tracks(f, c) :: Within(Reach(p, c, FactOf(f, c)), FactOf(Analyse(p, f, unique, own).value, c))
  {
    forall c, x | Tracks(f, c)
      ensures Has(Reach(p, c, FactOf(f, c)), x) <==> IsReached(p, c, FactOf(f, c), x)
    {
      ReachIff(p, c, FactOf(f, c), x);
    }
  }

  /** What "definitely live" promises: on every run the local and all its eligible projections are live. */
  lemma DefinitelyLiveOnAllRuns(p: Program, f: Flow, unique: bool, own: bool, kind: ProjectionKind, k: bv64,
                                r: Run, w: State, s: State)
    requires Reachable(f) && Analyse(p, f, unique, own).Some? && Covers(p, f, unique, own)
    requires Fits(p, r) && Describes(f, kind, k, w, s)
    requires IsDefinitelyLive(Analyse(p, f, unique, own).value.facts)
    ensures After(r, Whole, w) == Live && (HasPart(f, kind, k) ==> After(r, Part(kind, k), s) == Live)
  {
    AnalyseKeeps(p, f, unique, own);
    IsDefinitelyLiveIff(Analyse(p, f, unique, own).value.facts);
    FactsSound(p, f, unique, own, kind, k, r, w, s);
  }

  // ---------------------------------------------------------------- when accepted programs are safe

  /** Every projection that is assigned or moved out belongs to a local that can only be live. */
  predicate PartsOnLive(p: Program, f: Flow, unique: bool, own: bool) {
    match p
    case Skip => true
    case Do(op) => op.Put? || op.Take? ==> f.facts.whole == Only(Live)
    case Seq(first, second) =>
      var mid := Analyse(first, f, unique, own);
      PartsOnLive(first, f, unique, own) && (mid.Some? ==> PartsOnLive(second, mid.value, unique, own))
    case If(yes, no) => PartsOnLive(yes, f, unique, false) && PartsOnLive(no, f, unique, false)
    case Block(body) => PartsOnLive(body, f, unique, false)
    case Loop(body) => PartsOnLive(body, f, unique, false)
  }

  /** Every loop body is safe once more from what its first round leaves. */
  ghost predicate Repeats(p: Program, f: Flow, unique: bool, own: bool) {
    match p
    case Skip => true
    case Do(op) => true
    case Seq(first, second) =>
      var mid := Analyse(first, f, unique, own);
      Repeats(first, f, unique, own) && (mid.Some? ==> Repeats(second, mid.value, unique, own))
    case If(yes, no) => Repeats(yes, f, unique, false) && Repeats(no, f, unique, false)
    case Block(body) => Repeats(body, f, unique, false)
    case Loop(body) =>
      && Repeats(body, f, unique, false)
      && forall c: Cell | Tracks(f, c) :: Safe(body, c, Reach(body, c, FactOf(f, c)))
  }

  /** No run from a place the facts describe finds the whole or a projection in a state that a statement
      does not expect. */
  ghost predicate IsSafe(p: Program, f: Flow) {
    forall kind: ProjectionKind, k: bv64, r: Run, w: State, s: State | Fits(p, r) && Describes(f, kind, k, w, s) ::
      !Faulty(r, Whole, w) && (HasPart(f, kind, k) ==> !Faulty(r, Part(kind, k), s))
  }

  ghost predicate SlotsSafe(p: Program, f: Flow) {
    forall c: Cell | Tracks(f, c) :: RunsSafely(p, c, FactOf(f, c))
  }

  /** It is enough to look at the whole and at the slots. */
  lemma SafeOnSlotsIff(p: Program, f: Flow)
    requires Reachable(f)
    ensures IsSafe(p, f) <==> SlotsSafe(p, f)
  {
    if SlotsSafe(p, f) {
      PartsSafe(p, f);
    } else {
      var c: Cell :| Tracks(f, c) && !RunsSafely(p, c, FactOf(f, c));
      var r: Run, t: State :| Fits(p, r) && Has(FactOf(f, c), t) && Faulty(r, c, t);
      FaultySlot(p, f, c, r, t);
    }
  }

  lemma PartsSafe(p: Program, f: Flow)
    requires Reachable(f) && SlotsSafe(p, f)
    ensures IsSafe(p, f)
  {
    forall kind: ProjectionKind, k: bv64, r: Run, w: State, s: State | Fits(p, r) && Describes(f, kind, k, w, s)
      ensures !Faulty(r, Whole, w) && (HasPart(f, kind, k) ==> !Faulty(r, Part(kind, k), s))
    {
      assert Tracks(f, Whole) && Has(FactOf(f, Whole), w);
      if HasPart(f, kind, k) {
        var t := SlotState(f, kind, k, w, s);
        assert Tracks(f, Slot(kind, k)) && Has(FactOf(f, Slot(kind, k)), t);
        SlotIsPart(r, kind, k, w, s, t);
      }
    }
  }

  lemma FaultySlot(p: Program, f: Flow, c: Cell, r: Run, t: State)
    requires Reachable(f) && Tracks(f, c) && Fits(p, r) && Has(FactOf(f, c), t) && Faulty(r, c, t)
    ensures !IsSafe(p, f)
  {
    if c.Whole? {
      assert !HasPart(f, NoProjection, 0) && Describes(f, NoProjection, 0, t, t);
    } else {
      var w := SomeState(f.facts.whole);
      assert Describes(f, c.kind, c.k, w, t);
      SlotIsPart(r, c.kind, c.k, w, t, t);
    }
  }

  /** Every statement is safe from the facts it is analysed with. */
  ghost predicate SafeThroughout(p: Program, f: Flow, unique: bool, own: bool) {
    && IsSafe(p, f)
    && match p
       case Skip => true
       case Do(op) => true
       case Seq(first, second) =>
         var mid := Analyse(first, f, unique, own);
         SafeThroughout(first, f, unique, own) && (mid.Some? ==> SafeThroughout(second, mid.value, unique, own))
       case If(yes, no) => SafeThroughout(yes, f, unique, false) && SafeThroughout(no, f, unique, false)
       case Block(body) => SafeThroughout(body, f, unique, false)
       case Loop(body) => SafeThroughout(body, f, unique, false)
  }

  lemma StepSafe(op: Op, f: Flow, c: Cell)
    requires Reachable(f) && Accepts(op, f) && Tracks(f, c) && (op.Put? || op.Take? ==> f.facts.whole == Only(Live))
    ensures Within(FactOf(f, c), Expects(op, c))
  {
    FactsAreFull(f, c);
    if op.Move? && c.Slot? {
      IsDefinitelyLiveIff(f.facts);
    }
  }

  lemma {:induction false} AcceptedSafe(p: Program, f: Flow, unique: bool, own: bool, c: Cell)
    requires Reachable(f) && Analyse(p, f, unique, own).Some? && Tracks(f, c)
    requires Covers(p, f, unique, own) && PartsOnLive(p, f, unique, own) && Repeats(p, f, unique, own)
    ensures Safe(p, c, FactOf(f, c))
  {
    match p
    case Skip =>
    case Do(op) => StepSafe(op, f, c);
    case Seq(first, second) =>
      var mid := Analyse(first, f, unique, own).value;
      AnalyseKeeps(first, f, unique, own);
      AcceptedSafe(first, f, unique, own, c);
      AcceptedSafe(second, mid, unique, own, c);
      FactsInclude(first, f, unique, own, c);
      SafeWithin(second, c, Reach(first, c, FactOf(f, c)), FactOf(mid, c));
    case If(yes, no) =>
      AcceptedSafe(yes, f, unique, false, c);
      AcceptedSafe(no, f, unique, false, c);
    case Block(body) => AcceptedSafe(body, f, unique, false, c);
    case Loop(body) =>
      AcceptedSafe(body, f, unique, false, c);
      SafeUnion(body, c, FactOf(f, c), Reach(body, c, FactOf(f, c)));
  }

  lemma AcceptedIsSafe(p: Program, f: Flow, unique: bool, own: bool)
    requires Reachable(f) && Analyse(p, f, unique, own).Some?
    requires Covers(p, f, unique, own) && PartsOnLive(p, f, unique, own) && Repeats(p, f, unique, own)
    ensures IsSafe(p, f)
  {
    forall c: Cell | Tracks(f, c)
      ensures RunsSafely(p, c, FactOf(f, c))
    {
      AcceptedSafe(p, f, unique, own, c);
      SafeIff(p, c, FactOf(f, c));
    }
    SafeOnSlotsIff(p, f);
  }

  lemma SafeLoopRepeats(body: Program, f: Flow)
    requires Reachable(f) && IsSafe(Loop(body), f)
    ensures forall c: Cell | Tracks(f, c) :: Safe(body, c, Reach(body, c, FactOf(f, c)))
  {
    SafeOnSlotsIff(Loop(body), f);
    forall c: Cell | Tracks(f, c)
      ensures Safe(body, c, Reach(body, c, FactOf(f, c)))
    {
      SafeIff(Loop(body), c, FactOf(f, c));
      SafeUnion(body, c, FactOf(f, c), Reach(body, c, FactOf(f, c)));
    }
  }

  lemma SafePart(op: Op, f: Flow)
    requires Reachable(f) && (op.Put? || op.Take?) && IsSafe(Do(op), f)
    ensures f.facts.whole == Only(Live)
  {
    SafeOnSlotsIff(Do(op), f);
    SafeIff(Do(op), Whole, f.facts.whole);
    assert Tracks(f, Whole) && Within(f.facts.whole, Only(Live));
    assert forall s :: Has(f.facts.whole, s) ==> Has(Only(Live), s);
    assert !Has(f.facts.whole, State.Never) && !Has(f.facts.whole, Moved);
  }

  /** Accepted programs whose facts hold are safe throughout exactly when every loop repeats and every
      projection that is assigned or moved out belongs to a live local. */
  lemma {:induction false} SafeThroughoutIff(p: Program, f: Flow, unique: bool, own: bool)
    requires Reachable(f) && Analyse(p, f, unique, own).Some? && Covers(p, f, unique, own)
    ensures SafeThroughout(p, f, unique, own) <==> PartsOnLive(p, f, unique, own) && Repeats(p, f, unique, own)
  {
    if PartsOnLive(p, f, unique, own) && Repeats(p, f, unique, own) {
      AcceptedIsSafe(p, f, unique, own);
    }
    match p
    case Skip =>
    case Do(op) =>
      if (op.Put? || op.Take?) && IsSafe(p, f) {
        SafePart(op, f);
      }
    case Seq(first, second) =>
      AnalyseKeeps(first, f, unique, own);
      SafeThroughoutIff(first, f, unique, own);
      SafeThroughoutIff(second, Analyse(first, f, unique, own).value, unique, own);
    case If(yes, no) =>
      SafeThroughoutIff(yes, f, unique, false);
      SafeThroughoutIff(no, f, unique, false);
    case Block(body) => SafeThroughoutIff(body, f, unique, false);
    case Loop(body) =>
      SafeThroughoutIff(body, f, unique, false);
      if SafeThroughout(p, f, unique, own) {
        SafeLoopRepeats(body, f);
      }
  }

  // ---------------------------------------------------------------- uniquely owned locals

  lemma {:induction false} NeverStaysOut(p: Program, f: Flow, unique: bool, own: bool)
    requires Reachable(f) && !Has(f.facts.whole, State.Never) && Analyse(p, f, unique, own).Some?
    ensures !Has(Analyse(p, f, unique, own).value.facts.whole, State.Never)
  {
    match p
    case Skip =>
    case Do(op) =>
    case Seq(first, second) =>
      AnalyseKeeps(first, f, unique, own);
      NeverStaysOut(first, f, unique, own);
      NeverStaysOut(second, Analyse(first, f, unique, own).value, unique, own);
    case If(yes, no) =>
      NeverStaysOut(yes, f, unique, false);
      NeverStaysOut(no, f, unique, false);
    case Block(body) => NeverStaysOut(body, f, unique, false);
    case Loop(body) => NeverStaysOut(body, f, unique, false);
  }

  /** Nothing is accepted that could meet a local without a value, except its construction. */
  lemma {:induction false} UnbuiltIdle(p: Program, f: Flow, unique: bool, own: bool)
    requires Reachable(f) && Has(f.facts.whole, State.Never) && f.facts.plan == NO_PLAN && !Builds(p)
    requires Analyse(p, f, unique, own).Some?
    ensures Idle(p) && Has(Analyse(p, f, unique, own).value.facts.whole, State.Never)
  {
    match p
    case Skip =>
    case Do(op) =>
    case Seq(first, second) =>
      AnalyseKeeps(first, f, unique, own);
      UnbuiltIdle(first, f, unique, own);
      UnbuiltIdle(second, Analyse(first, f, unique, own).value, unique, own);
    case If(yes, no) =>
      AnalyseKeeps(yes, f, unique, false);
      AnalyseKeeps(no, f, unique, false);
      UnbuiltIdle(yes, f, unique, false);
      UnbuiltIdle(no, f, unique, false);
      JoinReachable(Analyse(yes, f, unique, false).value, Analyse(no, f, unique, false).value);
    case Block(body) => UnbuiltIdle(body, f, unique, false);
    case Loop(body) =>
      AnalyseKeeps(body, f, unique, false);
      UnbuiltIdle(body, f, unique, false);
      JoinReachable(f, Analyse(body, f, unique, false).value);
  }

  /** The loop check for uniquely owned locals makes one pass enough: every covered loop that is accepted
      repeats, unless it constructs the local. */
  lemma {:induction false} UniqueRepeats(p: Program, f: Flow, own: bool)
    requires Reachable(f) && f.facts.plan == NO_PLAN && BuildsOutside(p)
    requires Analyse(p, f, true, own).Some? && Covers(p, f, true, own) && PartsOnLive(p, f, true, own)
    ensures Repeats(p, f, true, own)
  {
    match p
    case Skip =>
    case Do(op) =>
    case Seq(first, second) =>
      AnalyseKeeps(first, f, true, own);
      UniqueRepeats(first, f, own);
      UniqueRepeats(second, Analyse(first, f, true, own).value, own);
    case If(yes, no) =>
      UniqueRepeats(yes, f, false);
      UniqueRepeats(no, f, false);
    case Block(body) => UniqueRepeats(body, f, false);
    case Loop(body) =>
      BodyBuildsOutside(body);
      UniqueRepeats(body, f, false);
      if Has(f.facts.whole, State.Never) {
        UnbuiltIdle(body, f, true, false);
        IdleSafe(body, Whole, Reach(body, Whole, f.facts.whole));
      } else {
        SecondRoundSafe(body, f);
      }
  }

  lemma BodyBuildsOutside(p: Program)
    requires !Builds(p)
    ensures BuildsOutside(p)
  {
  }

  lemma SecondRoundSafe(body: Program, f: Flow)
    requires Reachable(f) && !Has(f.facts.whole, State.Never) && Analyse(Loop(body), f, true, false).Some?
    requires Covers(body, f, true, false) && PartsOnLive(body, f, true, false) && Repeats(body, f, true, false)
    ensures Safe(body, Whole, Reach(body, Whole, f.facts.whole))
  {
    var whole := f.facts.whole;
    AcceptedSafe(body, f, true, false, Whole);
    FactsInclude(body, f, true, false, Whole);
    NeverStaysOut(body, f, true, false);
    if f.moved {
      SafeFromLive(body, whole);
      SafeUnion(body, Whole, whole, Only(Live));
      SafeWithin(body, Whole, Reach(body, Whole, whole), Union(whole, Only(Live)));
    } else {
      SafeWithin(body, Whole, Reach(body, Whole, whole), whole);
    }
  }

  /** Safe loops construct nothing. */
  lemma {:induction false} SafeBuildsOutside(p: Program, f: Flow, unique: bool, own: bool)
    requires Reachable(f) && Analyse(p, f, unique, own).Some? && SafeThroughout(p, f, unique, own)
    ensures BuildsOutside(p)
  {
    match p
    case Skip =>
    case Do(op) =>
    case Seq(first, second) =>
      AnalyseKeeps(first, f, unique, own);
      SafeBuildsOutside(first, f, unique, own);
      SafeBuildsOutside(second, Analyse(first, f, unique, own).value, unique, own);
    case If(yes, no) =>
      SafeBuildsOutside(yes, f, unique, false);
      SafeBuildsOutside(no, f, unique, false);
    case Block(body) => SafeBuildsOutside(body, f, unique, false);
    case Loop(body) =>
      if Builds(body) {
        UnsafeBuilding(body, f);
      }
  }

  lemma UnsafeBuilding(body: Program, f: Flow)
    requires Reachable(f) && Builds(body)
    ensures !IsSafe(Loop(body), f)
  {
    var w := SomeState(f.facts.whole);
    var r := BuildingLoopFaults(body, w);
    FaultySlot(Loop(body), f, Whole, r, w);
  }

  /** A uniquely owned local has no projections. With the loop check, no run of an accepted program finds
      it in a state it should not be in exactly when, throughout, its unjoined loops are covered, parts
      of it are used only while it is live, and it is not constructed in a loop. */
  lemma UniqueSafeIff(p: Program, f: Flow, own: bool)
    requires Reachable(f) && f.facts.plan == NO_PLAN && Analyse(p, f, true, own).Some?
    ensures HoldsThroughout(p, f, true, own) && SafeThroughout(p, f, true, own) <==>
      Covers(p, f, true, own) && PartsOnLive(p, f, true, own) && BuildsOutside(p)
  {
    HoldsIff(p, f, true, own);
    if Covers(p, f, true, own) {
      SafeThroughoutIff(p, f, true, own);
      if SafeThroughout(p, f, true, own) {
        SafeBuildsOutside(p, f, true, own);
      } else if PartsOnLive(p, f, true, own) && BuildsOutside(p) {
        UniqueRepeats(p, f, own);
      }
    }
  }

  // ---------------------------------------------------------------- when the facts are exact

  /** No local is assigned that may be live and may be moved. */
  predicate Sharp(p: Program, f: Flow, unique: bool, own: bool) {
    match p
    case Skip => true
    case Do(op) => op.Assign? ==> f.facts.whole != Fact(false, true, true)
    case Seq(first, second) =>
      var mid := Analyse(first, f, unique, own);
      Sharp(first, f, unique, own) && (mid.Some? ==> Sharp(second, mid.value, unique, own))
    case If(yes, no) => Sharp(yes, f, unique, false) && Sharp(no, f, unique, false)
    case Block(body) => Sharp(body, f, unique, false)
    case Loop(body) => Sharp(body, f, unique, false)
  }

  /** Some run ends in each computed state. */
  ghost predicate Exactly(p: Program, f: Flow, unique: bool, own: bool) {
    Analyse(p, f, unique, own).Some? ==>
      forall c: Cell, x: State | Tracks(f, c) && Has(FactOf(Analyse(p, f, unique, own).value, c), x) ::
        IsReached(p, c, FactOf(f, c), x)
  }

  ghost predicate ExactThroughout(p: Program, f: Flow, unique: bool, own: bool) {
    && Exactly(p, f, unique, own)
    && match p
       case Skip => true
       case Do(op) => true
       case Seq(first, second) =>
         var mid := Analyse(first, f, unique, own);
         ExactThroughout(first, f, unique, own) && (mid.Some? ==> ExactThroughout(second, mid.value, unique, own))
       case If(yes, no) => ExactThroughout(yes, f, unique, false) && ExactThroughout(no, f, unique, false)
       case Block(body) => ExactThroughout(body, f, unique, false)
       case Loop(body) => ExactThroughout(body, f, unique, false)
  }

  lemma {:induction false} FactsReached(p: Program, f: Flow, unique: bool, own: bool, c: Cell)
    requires Reachable(f) && Analyse(p, f, unique, own).Some? && Sharp(p, f, unique, own) && Tracks(f, c)
    ensures Within(FactOf(Analyse(p, f, unique, own).value, c), Reach(p, c, FactOf(f, c)))
  {
    match p
    case Skip =>
    case Do(op) => StepFact(op, f, c);
    case Seq(first, second) =>
      var mid := Analyse(first, f, unique, own).value;
      AnalyseKeeps(first, f, unique, own);
      FactsReached(first, f, unique, own, c);
      FactsReached(second, mid, unique, own, c);
      ReachMonotone(second, c, FactOf(mid, c), Reach(first, c, FactOf(f, c)));
    case If(yes, no) =>
      AnalyseKeeps(yes, f, unique, false);
      AnalyseKeeps(no, f, unique, false);
      FactsReached(yes, f, unique, false, c);
      FactsReached(no, f, unique, false, c);
      JoinReachable(Analyse(yes, f, unique, false).value, Analyse(no, f, unique, false).value);
    case Block(body) => FactsReached(body, f, unique, false, c);
    case Loop(body) =>
      AnalyseKeeps(body, f, unique, false);
      FactsReached(body, f, unique, false, c);
      JoinReachable(f, Analyse(body, f, unique, false).value);
  }

  lemma SharpIsExact(p: Program, f: Flow, unique: bool, own: bool)
    requires Reachable(f) && Sharp(p, f, unique, own)
    ensures Exactly(p, f, unique, own)
  {
    if Analyse(p, f, unique, own).Some? {
      forall c: Cell, x: State | Tracks(f, c) && Has(FactOf(Analyse(p, f, unique, own).value, c), x)
        ensures IsReached(p, c, FactOf(f, c), x)
      {
        FactsReached(p, f, unique, own, c);
        ReachIff(p, c, FactOf(f, c), x);
      }
    }
  }

  lemma ExactAssign(f: Flow, unique: bool, own: bool)
    requires Reachable(f) && f.facts.whole == Fact(false, true, true)
    ensures !Exactly(Do(Assign), f, unique, own)
  {
    StepFact(Assign, f, Whole);
    ReachIff(Do(Assign), Whole, f.facts.whole, Moved);
    assert Analyse(Do(Assign), f, unique, own) == Step(Assign, f) && Tracks(f, Whole);
    assert Has(FactOf(Analyse(Do(Assign), f, unique, own).value, Whole), Moved);
    assert !IsReached(Do(Assign), Whole, FactOf(f, Whole), Moved);
  }

  /** The facts of an accepted program are exact throughout, loops included, exactly when no assignment
      meets a local that may be live and may be moved. */
  lemma {:induction false} ExactIff(p: Program, f: Flow, unique: bool, own: bool)
    requires Reachable(f) && Analyse(p, f, unique, own).Some?
    ensures ExactThroughout(p, f, unique, own) <==> Sharp(p, f, unique, own)
  {
    if Sharp(p, f, unique, own) {
      SharpIsExact(p, f, unique, own);
    }
    match p
    case Skip =>
    case Do(op) =>
      if !Sharp(p, f, unique, own) {
        ExactAssign(f, unique, own);
      }
    case Seq(first, second) =>
      AnalyseKeeps(first, f, unique, own);
      ExactIff(first, f, unique, own);
      ExactIff(second, Analyse(first, f, unique, own).value, unique, own);
    case If(yes, no) =>
      ExactIff(yes, f, unique, false);
      ExactIff(no, f, unique, false);
    case Block(body) => ExactIff(body, f, unique, false);
    case Loop(body) => ExactIff(body, f, unique, false);
  }

  // ---------------------------------------------------------------- rejections

  /** Every projection that is moved out is one that the plan has. */
  predicate PlanFits(p: Program, plan: Plan) {
    match p
    case Skip => true
    case Do(op) => op.Take? ==> Admits(plan, op.kind, op.k)
    case Seq(first, second) => PlanFits(first, plan) && PlanFits(second, plan)
    case If(yes, no) => PlanFits(yes, plan) && PlanFits(no, plan)
    case Block(body) => PlanFits(body, plan)
    case Loop(body) => PlanFits(body, plan)
  }

  lemma StepRejected(op: Op, f: Flow) returns (c: Cell)
    requires Reachable(f) && !Accepts(op, f) && (op.Take? ==> Admits(f.facts.plan, op.kind, op.k))
    ensures Tracks(f, c) && !Within(FactOf(f, c), Expects(op, c))
  {
    c := Whole;
    var whole := f.facts.whole;
    match op
    case Init => assert Has(whole, Live) || Has(whole, Moved);
    case Move =>
      IsDefinitelyLiveIff(f.facts);
      if whole != Only(Live) {
        assert Has(whole, State.Never) || Has(whole, Moved);
      } else {
        var k :| k in f.facts.plan.eligible && FactAt(f.facts.parts, k) != Only(Live);
        c := Slot(f.facts.plan.kind, k);
        FactsAreFull(f, c);
        assert Has(FactOf(f, c), State.Never) || Has(FactOf(f, c), Moved);
      }
    case Assign => assert Has(whole, State.Never);
    case Put(_, _) => assert Has(whole, State.Never) || Has(whole, Moved);
    case Take(kind, k) =>
      if kind.DirectField? && Has(whole, Moved) {
      } else {
        c := Slot(kind, k);
        FactsAreFull(f, c);
        assert Has(FactOf(f, c), State.Never) || Has(FactOf(f, c), Moved);
      }
  }

  /** A rejection of a sharp program is never a false alarm: some run goes wrong. */
  lemma RejectedFaults(p: Program, f: Flow, own: bool)
    requires Reachable(f) && PlanFits(p, f.facts.plan) && Sharp(p, f, false, own)
    requires Analyse(p, f, false, own).None?
    ensures !IsSafe(p, f)
  {
    var c := RejectedUnsafe(p, f, own);
    SafeIff(p, c, FactOf(f, c));
    SafeOnSlotsIff(p, f);
  }

  lemma {:induction false} RejectedUnsafe(p: Program, f: Flow, own: bool) returns (c: Cell)
    requires Reachable(f) && PlanFits(p, f.facts.plan) && Sharp(p, f, false, own)
    requires Analyse(p, f, false, own).None?
    ensures Tracks(f, c) && !Safe(p, c, FactOf(f, c))
  {
    match p
    case Do(op) => c := StepRejected(op, f);
    case Seq(first, second) =>
      if Analyse(first, f, false, own).None? {
        c := RejectedUnsafe(first, f, own);
      } else {
        var mid := Analyse(first, f, false, own).value;
        AnalyseKeeps(first, f, false, own);
        c := RejectedUnsafe(second, mid, own);
        FactsReached(first, f, false, own, c);
        if Safe(p, c, FactOf(f, c)) {
          SafeWithin(second, c, FactOf(mid, c), Reach(first, c, FactOf(f, c)));
        }
      }
    case If(yes, no) =>
      if Analyse(yes, f, false, false).None? {
        c := RejectedUnsafe(yes, f, false);
      } else {
        c := RejectedUnsafe(no, f, false);
      }
    case Block(body) => c := RejectedUnsafe(body, f, false);
    case Loop(body) =>
      c := RejectedUnsafe(body, f, false);
      SafeUnion(body, c, FactOf(f, c), Reach(body, c, FactOf(f, c)));
  }

  // ---------------------------------------------------------------- where the analysis goes wrong

  const ARMS := If(Loop(Do(Assign)), Loop(Do(Assign)))

  lemma ArmsForget(f: Flow, unique: bool, own: bool) returns (after: Flow)
    requires Reachable(f) && f.facts.whole == Only(Moved)
    ensures Analyse(ARMS, f, unique, own) == Some(after) && IsDefinitelyLive(after.facts)
  {
    after := Step(Assign, f).value;
    StepReachable(Assign, f);
    JoinIdempotent(after.facts);
    assert JoinFlow(after, after) == after;
    assert Analyse(Loop(Do(Assign)), f, unique, false) == Some(after);
    IsDefinitelyLiveIff(after.facts);
    PlannedIsCovered(f.facts.plan, f.facts.plan.eligible);
  }

  /** The run without a round in either loop. */
  lemma ArmsSkipped()
    ensures Fits(ARMS, Rounds([])) && After(Rounds([]), Whole, Moved) == Moved
  {
    assert Fits(Loop(Do(Assign)), Rounds([]));
    assert AfterAll([], Whole, Moved) == Moved;
  }

  /** A moved local that is assigned in a loop in either arm of a branch: the arms are blocks of their
      own, so the facts before the loops are lost, and a move behind them is accepted although the local
      is still moved when no loop had a round, whether it is uniquely owned or not. */
  lemma LoopsInBothArms(f: Flow, unique: bool, own: bool)
    requires Reachable(f) && f.facts.whole == Only(Moved)
    ensures !Covers(ARMS, f, unique, own)
    ensures Analyse(Seq(ARMS, Do(Move)), f, unique, own).Some? && !IsSafe(Seq(ARMS, Do(Move)), f)
  {
    var after := ArmsForget(f, unique, own);
    ArmsSkipped();
    if Covers(ARMS, f, unique, own) {
      SlotsSound(ARMS, f, unique, own, Whole, Rounds([]), Moved);
    }
    MoveBehind(ARMS, f, after, unique, own, Rounds([]));
  }

  lemma MoveBehind(p: Program, f: Flow, after: Flow, unique: bool, own: bool, r: Run)
    requires Reachable(f) && Analyse(p, f, unique, own) == Some(after) && IsDefinitelyLive(after.facts)
    requires Fits(p, r) && Has(f.facts.whole, Moved) && After(r, Whole, Moved) == Moved
    ensures Analyse(Seq(p, Do(Move)), f, unique, own).Some? && !IsSafe(Seq(p, Do(Move)), f)
  {
    assert Analyse(Do(Move), after, unique, own).Some?;
    var r2 := Then(r, Once(Move));
    assert Fits(Do(Move), Once(Move)) && Fits(Seq(p, Do(Move)), r2) && Faulty(r2, Whole, Moved);
    FaultySlot(Seq(p, Do(Move)), f, Whole, r2, Moved);
  }

  /** The smallest program that one pass does not catch: a local moved in a loop. The check for uniquely
      owned locals catches it. */
  lemma MovedInLoop(f: Flow, own: bool)
    requires Reachable(f) && IsDefinitelyLive(f.facts)
    ensures Analyse(Loop(Do(Move)), f, false, own).Some? && Analyse(Loop(Do(Move)), f, true, own).None?
    ensures Fits(Loop(Do(Move)), Rounds([Once(Move), Once(Move)]))
    ensures Faulty(Rounds([Once(Move), Once(Move)]), Whole, Live)
  {
    TwoRounds(Once(Move), Once(Move), Whole, Live);
  }

  /** Nor is a projection that is moved out in a loop caught, by either check. */
  lemma TakenInLoop(f: Flow, unique: bool, own: bool, kind: ProjectionKind, k: bv64)
    requires Reachable(f) && IsDefinitelyLive(f.facts) && Admits(f.facts.plan, kind, k)
    ensures Analyse(Loop(Do(Take(kind, k))), f, unique, own).Some?
    ensures Fits(Loop(Do(Take(kind, k))), Rounds([Once(Take(kind, k)), Once(Take(kind, k))]))
    ensures Faulty(Rounds([Once(Take(kind, k)), Once(Take(kind, k))]), Part(kind, k), Live)
  {
    IsDefinitelyLiveIff(f.facts);
    TwoRounds(Once(Take(kind, k)), Once(Take(kind, k)), Part(kind, k), Live);
  }

  /** An element of an array that was moved as a whole can be moved out once more. */
  lemma TakenFromMoved(f: Flow, unique: bool, own: bool, k: bv64)
    requires Reachable(f) && IsDefinitelyLive(f.facts) && HasPart(f, FixedArrayElement, k)
    ensures var p := Seq(Do(Move), Do(Take(FixedArrayElement, k)));
      Analyse(p, f, unique, own).Some? && Covers(p, f, unique, own) && !IsSafe(p, f)
  {
    var p, take := Seq(Do(Move), Do(Take(FixedArrayElement, k))), Take(FixedArrayElement, k);
    IsDefinitelyLiveIff(f.facts);
    StepReachable(Move, f);
    assert Analyse(Do(take), Step(Move, f).value, unique, own).Some?;
    var r := Then(Once(Move), Once(take));
    assert Fits(Do(Move), Once(Move)) && Fits(Do(take), Once(take)) && Fits(p, r);
    assert After(Once(Move), Whole, Live) == Moved && Faulty(Once(take), Whole, Moved);
    FaultySlot(p, f, Whole, r, Live);
  }

  /** A local that is constructed in a loop of its own block passes both checks, although its second
      round constructs it again; a uniquely owned one, too. */
  lemma BuiltInLoop(f: Flow, unique: bool)
    requires Reachable(f) && f.facts.whole == Only(State.Never)
    ensures var p := Loop(Do(Init));
      && Analyse(p, f, unique, true).Some? && Covers(p, f, unique, true) && PartsOnLive(p, f, unique, true)
      && !IsSafe(p, f)
  {
    UnsafeBuilding(Do(Init), f);
  }

  /** A live cell may be moved, and assigned from whatever that leaves. */
  lemma MoveThenAssign(c: Cell)
    ensures var left := Image(Move, c, Only(Live));
      && Safe(Do(Move), c, Only(Live)) && Reach(Do(Move), c, Only(Live)) == left
      && !left.never && left != BOTTOM
  {
  }

  lemma AssignLeavesLive(c: Cell, f: Fact)
    requires !f.never && f != BOTTOM
    ensures Safe(Do(Assign), c, f) && Reach(Do(Assign), c, f) == Only(Live)
  {
  }

  lemma ReassignedSafe(c: Cell)
    ensures Safe(Seq(If(Do(Move), Skip), Seq(Do(Assign), Do(Move))), c, Only(Live))
  {
    var mid := Union(Image(Move, c, Only(Live)), Only(Live));
    MoveThenAssign(c);
    AssignLeavesLive(c, mid);
    assert Reach(Skip, c, Only(Live)) == Only(Live) && Reach(If(Do(Move), Skip), c, Only(Live)) == mid;
    assert Safe(Seq(Do(Assign), Do(Move)), c, mid);
  }

  /** A false alarm: a local that was perhaps moved, then assigned and moved again. */
  lemma ReassignedFalseAlarm(f: Flow, unique: bool, own: bool)
    requires Reachable(f) && IsDefinitelyLive(f.facts)
    ensures var p := Seq(If(Do(Move), Skip), Seq(Do(Assign), Do(Move)));
      Analyse(p, f, unique, own).None? && IsSafe(p, f)
  {
    var arms, rest := If(Do(Move), Skip), Seq(Do(Assign), Do(Move));
    StepReachable(Move, f);
    JoinReachable(Step(Move, f).value, f);
    IsDefinitelyLiveIff(f.facts);
    var mid := JoinFlow(Step(Move, f).value, f);
    assert Analyse(arms, f, unique, own) == Some(mid) && mid.facts.whole == Fact(false, true, true);
    assert Step(Assign, mid).value.facts.whole == mid.facts.whole;
    assert Analyse(rest, mid, unique, own).None?;
    forall c: Cell | Tracks(f, c)
      ensures RunsSafely(Seq(arms, rest), c, FactOf(f, c))
    {
      assert FactOf(f, c) == Only(Live);
      ReassignedSafe(c);
      SafeIff(Seq(arms, rest), c, FactOf(f, c));
    }
    SafeOnSlotsIff(Seq(arms, rest), f);
  }

  lemma RefilledSafe(c: Cell)
    ensures Safe(Loop(Seq(Do(Assign), Do(Move))), c, Only(Live))
  {
    var body, left := Seq(Do(Assign), Do(Move)), Image(Move, c, Only(Live));
    MoveThenAssign(c);
    AssignLeavesLive(c, Only(Live));
    assert Reach(body, c, Only(Live)) == left;
    AssignLeavesLive(c, Union(Only(Live), left));
    assert Safe(body, c, Union(Only(Live), left));
  }

  /** And a false alarm of the loop check: a local that is assigned and moved in each round. */
  lemma RefilledFalseAlarm(f: Flow, own: bool)
    requires Reachable(f) && IsDefinitelyLive(f.facts)
    ensures var p := Loop(Seq(Do(Assign), Do(Move)));
      Analyse(p, f, true, own).None? && Analyse(p, f, false, own).Some? && IsSafe(p, f)
  {
    var p, refilled := Loop(Seq(Do(Assign), Do(Move))), Step(Assign, f).value;
    StepReachable(Assign, f);
    IsDefinitelyLiveIff(f.facts);
    IsDefinitelyLiveIff(refilled.facts);
    PlannedIsCovered(f.facts.plan, f.facts.plan.eligible);
    assert Analyse(Do(Assign), f, true, false) == Some(refilled) && Analyse(Do(Move), refilled, true, false).Some?;
    assert Analyse(Do(Assign), f, false, false) == Some(refilled) && Analyse(Do(Move), refilled, false, false).Some?;
    forall c: Cell | Tracks(f, c)
      ensures RunsSafely(p, c, FactOf(f, c))
    {
      assert FactOf(f, c) == Only(Live);
      RefilledSafe(c);
      SafeIff(p, c, FactOf(f, c));
    }
    SafeOnSlotsIff(p, f);
  }
}
