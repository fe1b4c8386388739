/** Programs over one local as the concrete runs they have, and which states those runs can reach. */
module PlaceRuns {
  import opened PlaceState

  /** What a statement does to the local: construct it, move it out, assign it, assign one of its
      projections, move one out. */
  datatype Op = Init | Move | Assign | Put(kind: ProjectionKind, k: bv64) | Take(kind: ProjectionKind, k: bv64)

  datatype Program = Skip | Do(op: Op) | Seq(first: Program, second: Program) | If(yes: Program, no: Program)
                   | Block(body: Program) | Loop(body: Program)

  datatype Run = Stay | Once(op: Op) | Then(first: Run, second: Run) | Rounds(rounds: seq<Run>)

  predicate Fits(p: Program, r: Run) {
    match p
    case Skip => r.Stay?
    case Do(op) => r == Once(op)
    case Seq(first, second) => r.Then? && Fits(first, r.first) && Fits(second, r.second)
    case If(yes, no) => Fits(yes, r) || Fits(no, r)
    case Block(body) => Fits(body, r)
    case Loop(body) => r.Rounds? && forall i | 0 <= i < |r.rounds| :: Fits(body, r.rounds[i])
  }

  // ---------------------------------------------------------------- one cell of the local

  /** The local as a whole; one of its projections; and the slot of a projection, the account of it
      that leaves the moves of the whole aside. */
  datatype Cell = Whole | Part(kind: ProjectionKind, k: bv64) | Slot(kind: ProjectionKind, k: bv64)

  predicate Concerns(op: Op, c: Cell) {
    (op.Put? || op.Take?) && !c.Whole? && c.kind == op.kind && c.k == op.k
  }

  const ANY := Fact(true, true, true)

  /** The states in which a statement may find a cell: the precondition of its transition. */
  function Expects(op: Op, c: Cell): Fact {
    match op
    case Init => if c.Whole? then Only(State.Never) else ANY
    case Move => Only(Live)
    case Assign => if c.Whole? then Fact(false, true, true) else ANY
    case Put(_, _) => if c.Whole? then Only(Live) else ANY
    case Take(_, _) => if c.Whole? || Concerns(op, c) then Only(Live) else ANY
  }

  /** A whole assignment makes every projection live again, and moving the whole takes them along. */
  function Becomes(op: Op, c: Cell, s: State): State {
    match op
    case Init => Live
    case Assign => Live
    case Move => if c.Slot? then s else Moved
    case Put(_, _) => if Concerns(op, c) then Live else s
    case Take(_, _) => if Concerns(op, c) then Moved else s
  }

  /** The state of a cell after a run. */
  function After(r: Run, c: Cell, s: State): State {
    match r
    case Stay => s
    case Once(op) => Becomes(op, c, s)
    case Then(first, second) => After(second, c, After(first, c, s))
    case Rounds(rounds) => AfterAll(rounds, c, s)
  }

  function AfterAll(rs: seq<Run>, c: Cell, s: State): State {
    if rs == [] then s else AfterAll(rs[1..], c, After(rs[0], c, s))
  }

  /** Some statement of the run finds the cell in a state it does not expect. */
  predicate Faulty(r: Run, c: Cell, s: State) {
    match r
    case Stay => false
    case Once(op) => !Has(Expects(op, c), s)
    case Then(first, second) => Faulty(first, c, s) || Faulty(second, c, After(first, c, s))
    case Rounds(rounds) => AnyFaulty(rounds, c, s)
  }

  predicate AnyFaulty(rs: seq<Run>, c: Cell, s: State) {
    rs != [] && (Faulty(rs[0], c, s) || AnyFaulty(rs[1..], c, After(rs[0], c, s)))
  }

  /** What a run does to a cell does not depend on the state it starts in, unless it leaves it alone. */
  lemma {:induction false} RunSetsOrKeeps(r: Run, c: Cell, s: State, t: State)
    ensures After(r, c, s) == After(r, c, t) || (After(r, c, s) == s && After(r, c, t) == t)
    decreases r, 0
  {
    match r
    case Stay =>
    case Once(op) =>
    case Then(first, second) =>
      RunSetsOrKeeps(first, c, s, t);
      RunSetsOrKeeps(second, c, After(first, c, s), After(first, c, t));
    case Rounds(rounds) => RoundsSetOrKeep(rounds, c, s, t);
  }

  lemma {:induction false} RoundsSetOrKeep(rs: seq<Run>, c: Cell, s: State, t: State)
    ensures AfterAll(rs, c, s) == AfterAll(rs, c, t) || (AfterAll(rs, c, s) == s && AfterAll(rs, c, t) == t)
    decreases rs, 1
  {
    if rs != [] {
      RunSetsOrKeeps(rs[0], c, s, t);
      RoundsSetOrKeep(rs[1..], c, After(rs[0], c, s), After(rs[0], c, t));
    }
  }

  /** While the whole is live a projection is in the state of its slot, and a run that treats the whole
      as it should goes wrong in the one exactly when it goes wrong in the other. */
  lemma {:induction false} SlotIsPart(r: Run, kind: ProjectionKind, k: bv64, w: State, s: State, t: State)
    requires w.Live? ==> s == t
    ensures After(r, Whole, w).Live? ==> After(r, Part(kind, k), s) == After(r, Slot(kind, k), t)
    ensures !Faulty(r, Whole, w) ==> (Faulty(r, Part(kind, k), s) <==> Faulty(r, Slot(kind, k), t))
    decreases r, 0
  {
    match r
    case Stay =>
    case Once(op) =>
    case Then(first, second) =>
      SlotIsPart(first, kind, k, w, s, t);
      SlotIsPart(second, kind, k, After(first, Whole, w), After(first, Part(kind, k), s),
                 After(first, Slot(kind, k), t));
    case Rounds(rounds) => SlotsArePart(rounds, kind, k, w, s, t);
  }

  lemma {:induction false} SlotsArePart(rs: seq<Run>, kind: ProjectionKind, k: bv64, w: State, s: State, t: State)
    requires w.Live? ==> s == t
    ensures AfterAll(rs, Whole, w).Live? ==> AfterAll(rs, Part(kind, k), s) == AfterAll(rs, Slot(kind, k), t)
    ensures !AnyFaulty(rs, Whole, w) ==> (AnyFaulty(rs, Part(kind, k), s) <==> AnyFaulty(rs, Slot(kind, k), t))
    decreases rs, 1
  {
    if rs != [] {
      SlotIsPart(rs[0], kind, k, w, s, t);
      SlotsArePart(rs[1..], kind, k, After(rs[0], Whole, w), After(rs[0], Part(kind, k), s),
                   After(rs[0], Slot(kind, k), t));
    }
  }

  lemma OneRound(r: Run, c: Cell, s: State)
    ensures After(Rounds([r]), c, s) == After(r, c, s) && Faulty(Rounds([r]), c, s) == Faulty(r, c, s)
  {
    assert [r][1..] == [];
    assert AfterAll([r], c, s) == AfterAll([], c, After(r, c, s));
    assert AnyFaulty([r], c, s) == (Faulty(r, c, s) || AnyFaulty([], c, After(r, c, s)));
  }

  lemma TwoRounds(r1: Run, r2: Run, c: Cell, s: State)
    ensures Faulty(Rounds([r1, r2]), c, s) == (Faulty(r1, c, s) || Faulty(r2, c, After(r1, c, s)))
  {
    assert [r1, r2][1..] == [r2];
    OneRound(r2, c, After(r1, c, s));
    assert AnyFaulty([r1, r2], c, s) == (Faulty(r1, c, s) || AnyFaulty([r2], c, After(r1, c, s)));
  }

  lemma {:induction false} SomeRun(p: Program) returns (r: Run)
    ensures Fits(p, r)
  {
    match p
    case Skip => r := Stay;
    case Do(op) => r := Once(op);
    case Seq(first, second) =>
      var r1 := SomeRun(first);
      var r2 := SomeRun(second);
      r := Then(r1, r2);
    case If(yes, no) => r := SomeRun(yes);
    case Block(body) => r := SomeRun(body);
    case Loop(body) => r := Rounds([]);
  }

  // ---------------------------------------------------------------- the states runs end in

  function Image(op: Op, c: Cell, f: Fact): Fact {
    Union(if f.never then Only(Becomes(op, c, State.Never)) else BOTTOM,
          Union(if f.live then Only(Becomes(op, c, Live)) else BOTTOM,
                if f.moved then Only(Becomes(op, c, Moved)) else BOTTOM))
  }

  /** The states of a cell after a program, by one pass that joins at every merge, loop exits included. */
  function Reach(p: Program, c: Cell, f: Fact): Fact {
    match p
    case Skip => f
    case Do(op) => Image(op, c, f)
    case Seq(first, second) => Reach(second, c, Reach(first, c, f))
    case If(yes, no) => Union(Reach(yes, c, f), Reach(no, c, f))
    case Block(body) => Reach(body, c, f)
    case Loop(body) => Union(f, Reach(body, c, f))
  }

  ghost predicate IsReached(p: Program, c: Cell, f: Fact, x: State) {
    exists r: Run, s: State :: Fits(p, r) && Has(f, s) && After(r, c, s) == x
  }

  lemma {:induction false} ReachSound(p: Program, c: Cell, f: Fact, r: Run, s: State)
    requires Fits(p, r) && Has(f, s)
    ensures Has(Reach(p, c, f), After(r, c, s))
    decreases p, r
  {
    match p
    case Skip =>
    case Do(op) =>
    case Seq(first, second) =>
      ReachSound(first, c, f, r.first, s);
      ReachSound(second, c, Reach(first, c, f), r.second, After(r.first, c, s));
    case If(yes, no) =>
      if Fits(yes, r) {
        ReachSound(yes, c, f, r, s);
      } else {
        ReachSound(no, c, f, r, s);
      }
    case Block(body) => ReachSound(body, c, f, r, s);
    case Loop(body) => RoundsReach(body, c, f, r.rounds, s, s);
  }

  /** Rounds from t, a state met before or after a first round; s is a state from before the loop. */
  lemma {:induction false} RoundsReach(body: Program, c: Cell, f: Fact, rs: seq<Run>, s: State, t: State)
    requires Has(f, s) && Has(Reach(Loop(body), c, f), t) && forall i | 0 <= i < |rs| :: Fits(body, rs[i])
    ensures Has(Reach(Loop(body), c, f), AfterAll(rs, c, t))
    decreases body, rs
  {
    if rs != [] {
      ReachSound(body, c, f, rs[0], s);
      RunSetsOrKeeps(rs[0], c, s, t);
      RoundsReach(body, c, f, rs[1..], s, After(rs[0], c, t));
    }
  }

  lemma {:induction false} ReachWitness(p: Program, c: Cell, f: Fact, x: State) returns (r: Run, s: State)
    requires Has(Reach(p, c, f), x)
    ensures Fits(p, r) && Has(f, s) && After(r, c, s) == x
  {
    match p
    case Skip => r, s := Stay, x;
    case Do(op) =>
      r := Once(op);
      s := if f.never && Becomes(op, c, State.Never) == x then State.Never
           else if f.live && Becomes(op, c, Live) == x then Live else Moved;
    case Seq(first, second) =>
      var r2, s2 := ReachWitness(second, c, Reach(first, c, f), x);
      var r1, s1 := ReachWitness(first, c, f, s2);
      r, s := Then(r1, r2), s1;
    case If(yes, no) =>
      if Has(Reach(yes, c, f), x) {
        r, s := ReachWitness(yes, c, f, x);
      } else {
        r, s := ReachWitness(no, c, f, x);
      }
    case Block(body) => r, s := ReachWitness(body, c, f, x);
    case Loop(body) =>
      if Has(f, x) {
        r, s := Rounds([]), x;
      } else {
        var r1, s1 := ReachWitness(body, c, f, x);
        r, s := Rounds([r1]), s1;
        OneRound(r1, c, s1);
      }
  }

  /** One pass is exact: it computes the states that some run ends in, although loops have any number
      of rounds. */
  lemma ReachIff(p: Program, c: Cell, f: Fact, x: State)
    ensures Has(Reach(p, c, f), x) <==> IsReached(p, c, f, x)
  {
    if Has(Reach(p, c, f), x) {
      var r, s := ReachWitness(p, c, f, x);
    } else if IsReached(p, c, f, x) {
      var r: Run, s: State :| Fits(p, r) && Has(f, s) && After(r, c, s) == x;
      ReachSound(p, c, f, r, s);
    }
  }

  lemma ReachMonotone(p: Program, c: Cell, f: Fact, g: Fact)
    requires Within(f, g)
    ensures Within(Reach(p, c, f), Reach(p, c, g))
  {
    forall x | Has(Reach(p, c, f), x)
      ensures Has(Reach(p, c, g), x)
    {
      var r, s := ReachWitness(p, c, f, x);
      ReachSound(p, c, g, r, s);
    }
  }

  // ---------------------------------------------------------------- safe programs

  /** Every statement finds the cell as it expects it; a loop body is entered from what it leaves, too. */
  predicate Safe(p: Program, c: Cell, f: Fact) {
    match p
    case Skip => true
    case Do(op) => Within(f, Expects(op, c))
    case Seq(first, second) => Safe(first, c, f) && Safe(second, c, Reach(first, c, f))
    case If(yes, no) => Safe(yes, c, f) && Safe(no, c, f)
    case Block(body) => Safe(body, c, f)
    case Loop(body) => Safe(body, c, Union(f, Reach(body, c, f)))
  }

  ghost predicate RunsSafely(p: Program, c: Cell, f: Fact) {
    forall r: Run, s: State :: Fits(p, r) && Has(f, s) ==> !Faulty(r, c, s)
  }

  lemma {:induction false} SafeSound(p: Program, c: Cell, f: Fact, r: Run, s: State)
    requires Safe(p, c, f) && Fits(p, r) && Has(f, s)
    ensures !Faulty(r, c, s)
    decreases p, r
  {
    match p
    case Skip =>
    case Do(op) =>
    case Seq(first, second) =>
      SafeSound(first, c, f, r.first, s);
      ReachSound(first, c, f, r.first, s);
      SafeSound(second, c, Reach(first, c, f), r.second, After(r.first, c, s));
    case If(yes, no) =>
      if Fits(yes, r) {
        SafeSound(yes, c, f, r, s);
      } else {
        SafeSound(no, c, f, r, s);
      }
    case Block(body) => SafeSound(body, c, f, r, s);
    case Loop(body) => RoundsSafe(body, c, f, r.rounds, s, s);
  }

  lemma {:induction false} RoundsSafe(body: Program, c: Cell, f: Fact, rs: seq<Run>, s: State, t: State)
    requires Safe(Loop(body), c, f) && Has(f, s) && Has(Reach(Loop(body), c, f), t)
    requires forall i | 0 <= i < |rs| :: Fits(body, rs[i])
    ensures !AnyFaulty(rs, c, t)
    decreases body, rs
  {
    if rs != [] {
      SafeSound(body, c, Union(f, Reach(body, c, f)), rs[0], t);
      ReachSound(body, c, f, rs[0], s);
      RunSetsOrKeeps(rs[0], c, s, t);
      RoundsSafe(body, c, f, rs[1..], s, After(rs[0], c, t));
    }
  }

  lemma {:induction false} UnsafeWitness(p: Program, c: Cell, f: Fact) returns (r: Run, s: State)
    requires !Safe(p, c, f)
    ensures Fits(p, r) && Has(f, s) && Faulty(r, c, s)
  {
    match p
    case Do(op) =>
      r := Once(op);
      s :| Has(f, s) && !Has(Expects(op, c), s);
    case Seq(first, second) =>
      if !Safe(first, c, f) {
        var r1, s1 := UnsafeWitness(first, c, f);
        var r2 := SomeRun(second);
        r, s := Then(r1, r2), s1;
      } else {
        var r2, s2 := UnsafeWitness(second, c, Reach(first, c, f));
        var r1, s1 := ReachWitness(first, c, f, s2);
        r, s := Then(r1, r2), s1;
      }
    case If(yes, no) =>
      if !Safe(yes, c, f) {
        r, s := UnsafeWitness(yes, c, f);
      } else {
        r, s := UnsafeWitness(no, c, f);
      }
    case Block(body) => r, s := UnsafeWitness(body, c, f);
    case Loop(body) =>
      var r2, s2 := UnsafeWitness(body, c, Union(f, Reach(body, c, f)));
      if Has(f, s2) {
        r, s := Rounds([r2]), s2;
        OneRound(r2, c, s2);
      } else {
        var r1, s1 := ReachWitness(body, c, f, s2);
        r, s := Rounds([r1, r2]), s1;
        TwoRounds(r1, r2, c, s1);
      }
  }

  /** Two rounds decide every loop: no run goes wrong exactly when each body is safe once more from what
      one round leaves. */
  lemma SafeIff(p: Program, c: Cell, f: Fact)
    ensures Safe(p, c, f) <==> RunsSafely(p, c, f)
  {
    if Safe(p, c, f) {
      forall r: Run, s: State | Fits(p, r) && Has(f, s)
        ensures !Faulty(r, c, s)
      {
        SafeSound(p, c, f, r, s);
      }
    } else {
      var r, s := UnsafeWitness(p, c, f);
    }
  }

  lemma SafeUnion(p: Program, c: Cell, f: Fact, g: Fact)
    ensures Safe(p, c, Union(f, g)) <==> Safe(p, c, f) && Safe(p, c, g)
  {
    SafeIff(p, c, f);
    SafeIff(p, c, g);
    SafeIff(p, c, Union(f, g));
  }

  lemma SafeWithin(p: Program, c: Cell, f: Fact, g: Fact)
    requires Safe(p, c, g) && Within(f, g)
    ensures Safe(p, c, f)
  {
    SafeIff(p, c, g);
    SafeIff(p, c, f);
  }

  /** No statement expects a local to be moved: a run that is safe from a moved local is safe from a
      live one. */
  lemma {:induction false} LiveIsSafer(r: Run)
    requires !Faulty(r, Whole, Moved)
    ensures !Faulty(r, Whole, Live)
    decreases r, 0
  {
    match r
    case Stay =>
    case Once(op) =>
    case Then(first, second) =>
      LiveIsSafer(first);
      RunSetsOrKeeps(first, Whole, Live, Moved);
      if After(first, Whole, Live) != After(first, Whole, Moved) {
        LiveIsSafer(second);
      }
    case Rounds(rounds) => LiveRoundsSafer(rounds);
  }

  lemma {:induction false} LiveRoundsSafer(rs: seq<Run>)
    requires !AnyFaulty(rs, Whole, Moved)
    ensures !AnyFaulty(rs, Whole, Live)
    decreases rs, 1
  {
    if rs != [] {
      LiveIsSafer(rs[0]);
      RunSetsOrKeeps(rs[0], Whole, Live, Moved);
      if After(rs[0], Whole, Live) != After(rs[0], Whole, Moved) {
        LiveRoundsSafer(rs[1..]);
      }
    }
  }

  lemma SafeFromLive(p: Program, f: Fact)
    requires Safe(p, Whole, f) && Has(f, Moved)
    ensures Safe(p, Whole, Only(Live))
  {
    SafeIff(p, Whole, f);
    SafeIff(p, Whole, Only(Live));
    forall r: Run, s: State | Fits(p, r) && Has(Only(Live), s)
      ensures !Faulty(r, Whole, s)
    {
      LiveIsSafer(r);
    }
  }

  // ---------------------------------------------------------------- constructing in a loop

  predicate Builds(p: Program) {
    match p
    case Skip => false
    case Do(op) => op.Init?
    case Seq(first, second) => Builds(first) || Builds(second)
    case If(yes, no) => Builds(yes) || Builds(no)
    case Block(body) => Builds(body)
    case Loop(body) => Builds(body)
  }

  /** The run goes through a construction. */
  predicate Built(r: Run)
    decreases r, 0
  {
    match r
    case Stay => false
    case Once(op) => op.Init?
    case Then(first, second) => Built(first) || Built(second)
    case Rounds(rounds) => AnyBuilt(rounds)
  }

  predicate AnyBuilt(rs: seq<Run>)
    decreases rs, 1
  {
    rs != [] && (Built(rs[0]) || AnyBuilt(rs[1..]))
  }

  lemma {:induction false} BuildingRun(p: Program) returns (r: Run)
    requires Builds(p)
    ensures Fits(p, r) && Built(r)
  {
    match p
    case Do(op) => r := Once(op);
    case Seq(first, second) =>
      if Builds(first) {
        var r1 := BuildingRun(first);
        var r2 := SomeRun(second);
        r := Then(r1, r2);
      } else {
        var r1 := SomeRun(first);
        var r2 := BuildingRun(second);
        r := Then(r1, r2);
      }
    case If(yes, no) =>
      if Builds(yes) {
        r := BuildingRun(yes);
      } else {
        r := BuildingRun(no);
      }
    case Block(body) => r := BuildingRun(body);
    case Loop(body) =>
      var r1 := BuildingRun(body);
      r := Rounds([r1]);
      assert [r1][1..] == [];
  }

  /** Nothing takes a constructed local back: after a construction, and once constructed, it never is
      without a value again, and a construction then goes wrong. */
  lemma {:induction false} BuiltOnce(r: Run, w: State)
    ensures w != State.Never || Built(r) ==> After(r, Whole, w) != State.Never
    ensures w != State.Never && Built(r) ==> Faulty(r, Whole, w)
    decreases r, 0
  {
    match r
    case Stay =>
    case Once(op) =>
    case Then(first, second) =>
      BuiltOnce(first, w);
      BuiltOnce(second, After(first, Whole, w));
    case Rounds(rounds) => AllBuiltOnce(rounds, w);
  }

  lemma {:induction false} AllBuiltOnce(rs: seq<Run>, w: State)
    ensures w != State.Never || AnyBuilt(rs) ==> AfterAll(rs, Whole, w) != State.Never
    ensures w != State.Never && AnyBuilt(rs) ==> AnyFaulty(rs, Whole, w)
    decreases rs, 1
  {
    if rs != [] {
      BuiltOnce(rs[0], w);
      AllBuiltOnce(rs[1..], After(rs[0], Whole, w));
    }
  }

  /** A loop that constructs the local goes wrong in its second round, wherever it starts. */
  lemma BuildingLoopFaults(body: Program, w: State) returns (r: Run)
    requires Builds(body)
    ensures Fits(Loop(body), r) && Faulty(r, Whole, w)
  {
    var r1 := BuildingRun(body);
    r := Rounds([r1, r1]);
    BuiltOnce(r1, w);
    BuiltOnce(r1, After(r1, Whole, w));
    TwoRounds(r1, r1, Whole, w);
  }

  /** No construction stands inside a loop. */
  predicate BuildsOutside(p: Program) {
    match p
    case Skip => true
    case Do(op) => true
    case Seq(first, second) => BuildsOutside(first) && BuildsOutside(second)
    case If(yes, no) => BuildsOutside(yes) && BuildsOutside(no)
    case Block(body) => BuildsOutside(body)
    case Loop(body) => !Builds(body)
  }

  /** A program without statements on the local. */
  predicate Idle(p: Program) {
    match p
    case Skip => true
    case Do(op) => false
    case Seq(first, second) => Idle(first) && Idle(second)
    case If(yes, no) => Idle(yes) && Idle(no)
    case Block(body) => Idle(body)
    case Loop(body) => Idle(body)
  }

  lemma {:induction false} IdleSafe(p: Program, c: Cell, f: Fact)
    requires Idle(p)
    ensures Safe(p, c, f)
  {
    match p
    case Skip =>
    case Seq(first, second) =>
      IdleSafe(first, c, f);
      IdleSafe(second, c, Reach(first, c, f));
    case If(yes, no) =>
      IdleSafe(yes, c, f);
      IdleSafe(no, c, f);
    case Block(body) => IdleSafe(body, c, f);
    case Loop(body) => IdleSafe(body, c, Union(f, Reach(body, c, f)));
  }
}
