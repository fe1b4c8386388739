/** Exact-place facts: which of Never, Live and Moved a local and up to 64 of its projections can be in. */
module PlaceState {
  import opened Words

  datatype State = Never | Live | Moved

  /** A set of states, one flag a state. */
  datatype Fact = Fact(never: bool, live: bool, moved: bool)

  const BOTTOM := Fact(false, false, false)

  function Only(s: State): Fact {
    Fact(s.Never?, s.Live?, s.Moved?)
  }

  predicate Has(f: Fact, s: State) {
    match s case Never => f.never case Live => f.live case Moved => f.moved
  }

  function Union(f: Fact, g: Fact): (h: Fact)
    ensures forall s :: Has(h, s) <==> Has(f, s) || Has(g, s)
  {
    Fact(f.never || g.never, f.live || g.live, f.moved || g.moved)
  }

  predicate Within(f: Fact, g: Fact) {
    forall s :: Has(f, s) ==> Has(g, s)
  }

  // ---------------------------------------------------------------- plans

  datatype ProjectionKind = NoProjection | DirectField | FixedArrayElement

  datatype Plan = Plan(kind: ProjectionKind, eligible: Mask)

  const NO_PLAN := Plan(NoProjection, {})

  predicate IsAdmitted(p: Plan) {
    !p.kind.NoProjection? && p.eligible != {}
  }

  predicate Admits(p: Plan, kind: ProjectionKind, k: bv64) {
    p.kind == kind && k in p.eligible
  }

  /** The plans the factories make: an empty mask makes no plan. */
  predicate PlanOk(p: Plan) {
    p.kind.NoProjection? <==> p.eligible == {}
  }

  // ---------------------------------------------------------------- the masks of the projections

  datatype Masks = Masks(tracked: Mask, never: Mask, live: Mask, moved: Mask)

  const UNTRACKED := Masks({}, {}, {}, {})

  function FromInitMask(tracked: Mask, live: Mask): Masks {
    Masks(tracked, tracked - live, tracked * live, {})
  }

  function FactAt(m: Masks, k: bv64): Fact {
    if k in m.tracked then Fact(k in m.never, k in m.live, k in m.moved) else BOTTOM
  }

  /** A strong update of one tracked projection. */
  function SetState(m: Masks, k: bv64, s: State): Masks {
    if k !in m.tracked then m
    else
      Masks(m.tracked,
            m.never - {k} + (if s.Never? then {k} else {}),
            m.live - {k} + (if s.Live? then {k} else {}),
            m.moved - {k} + (if s.Moved? then {k} else {}))
  }

  function DefinitelyLive(m: Masks): Mask {
    m.live - (m.never + m.moved)
  }

  function ToInitMask(m: Masks, legacy: Mask): Mask {
    if m.tracked != {} then legacy - m.tracked + DefinitelyLive(m) else legacy
  }

  function JoinMasks(a: Masks, b: Masks): Masks {
    if a.tracked == {} then b
    else if b.tracked == {} then a
    else
      var common := a.tracked * b.tracked;
      Masks(common, (a.never + b.never) * common, (a.live + b.live) * common, (a.moved + b.moved) * common)
  }

  /** No state is recorded outside the tracked projections. */
  predicate Inside(m: Masks) {
    m.never + m.live + m.moved <= m.tracked
  }

  /** And every tracked projection is in some state. */
  predicate Covered(m: Masks) {
    m.never + m.live + m.moved == m.tracked
  }

  // ---------------------------------------------------------------- what the masks mean

  lemma CoveredIff(m: Masks)
    ensures Covered(m) <==> Inside(m) && forall k | k in m.tracked :: FactAt(m, k) != BOTTOM
  {
    if Inside(m) && forall k | k in m.tracked :: FactAt(m, k) != BOTTOM {
      forall k | k in m.tracked
        ensures k in m.never + m.live + m.moved
      {
        assert FactAt(m, k) != BOTTOM;
      }
    }
    if Covered(m) {
      assert forall k | k in m.tracked :: k in m.never + m.live + m.moved;
    }
  }

  /** Masks inside their tracked set are the same masks when they record the same facts. */
  lemma MasksExtensional(a: Masks, b: Masks)
    requires Inside(a) && Inside(b) && a.tracked == b.tracked
    requires forall k | k in a.tracked :: FactAt(a, k) == FactAt(b, k)
    ensures a == b
  {
    InsideUntracked(a);
    InsideUntracked(b);
    forall k: bv64
      ensures k in a.never <==> k in b.never
      ensures k in a.live <==> k in b.live
      ensures k in a.moved <==> k in b.moved
    {
      if k in a.tracked {
        assert FactAt(a, k) == FactAt(b, k);
      }
    }
  }

  /** At a join of two tracked projections either branch's states are possible. */
  lemma FactAtJoin(a: Masks, b: Masks, k: bv64)
    requires a.tracked != {} && b.tracked != {}
    ensures FactAt(JoinMasks(a, b), k) ==
      if k in a.tracked && k in b.tracked then Union(FactAt(a, k), FactAt(b, k)) else BOTTOM
  {
  }

  /** A strong update changes one projection, to exactly one state. */
  lemma FactAtSet(m: Masks, j: bv64, s: State, k: bv64)
    ensures SetState(m, j, s).tracked == m.tracked
    ensures FactAt(SetState(m, j, s), k) == if j == k && k in m.tracked then Only(s) else FactAt(m, k)
  {
  }

  /** The mask of definitely live projections holds exactly those that can be in no other state. */
  lemma DefinitelyLiveMeans(m: Masks, k: bv64)
    requires Inside(m)
    ensures k in DefinitelyLive(m) <==> FactAt(m, k) == Only(Live)
  {
    assert k in m.live ==> k in m.never + m.live + m.moved;
  }

  /** The compatibility mask of a join is the AND of the branches' masks on the projections that both
      track, and the old mask everywhere else. */
  lemma InitMaskOfJoin(a: Masks, b: Masks, legacy: Mask)
    requires Covered(a) && Covered(b) && a.tracked != {} && b.tracked != {}
    ensures var both := a.tracked * b.tracked;
      ToInitMask(JoinMasks(a, b), legacy) == legacy - both + ToInitMask(a, legacy) * ToInitMask(b, legacy) * both
  {
    forall k: bv64
      ensures k in ToInitMask(JoinMasks(a, b), legacy) <==>
        if k in a.tracked && k in b.tracked then k in ToInitMask(a, legacy) && k in ToInitMask(b, legacy)
        else k in legacy
    {
      InitMaskMeans(a, legacy, k);
      InitMaskMeans(b, legacy, k);
      JoinKeepsCovered(a, b);
      InitMaskMeans(JoinMasks(a, b), legacy, k);
      FactAtJoin(a, b, k);
      CoveredIff(a);
      CoveredIff(b);
    }
  }

  lemma InitMaskMeans(m: Masks, legacy: Mask, k: bv64)
    requires Covered(m)
    ensures k in ToInitMask(m, legacy) <==> if k in m.tracked then FactAt(m, k) == Only(Live) else k in legacy
  {
    DefinitelyLiveMeans(m, k);
    assert k in m.live ==> k in m.never + m.live + m.moved;
  }

  lemma JoinKeepsCovered(a: Masks, b: Masks)
    requires Covered(a) && Covered(b)
    ensures Covered(JoinMasks(a, b))
  {
    if a.tracked != {} && b.tracked != {} {
      var j := JoinMasks(a, b);
      forall k
        ensures k in j.never + j.live + j.moved <==> k in j.tracked
      {
        assert k in a.tracked <==> k in a.never + a.live + a.moved;
        assert k in b.tracked <==> k in b.never + b.live + b.moved;
      }
    }
  }

  lemma SetKeepsCovered(m: Masks, k: bv64, s: State)
    requires Covered(m)
    ensures Covered(SetState(m, k, s))
  {
    assert forall j :: j in m.tracked <==> j in m.never + m.live + m.moved;
    var n := SetState(m, k, s);
    assert forall j :: j in n.tracked <==> j in n.never + n.live + n.moved;
  }

  // ---------------------------------------------------------------- laws of the mask join

  lemma MasksCommute(a: Masks, b: Masks)
    requires Inside(a) && Inside(b)
    ensures JoinMasks(a, b) == JoinMasks(b, a)
  {
    InsideUntracked(a);
    InsideUntracked(b);
    if a.tracked != {} && b.tracked != {} {
      assert a.tracked * b.tracked == b.tracked * a.tracked;
      assert a.never + b.never == b.never + a.never && a.live + b.live == b.live + a.live;
      assert a.moved + b.moved == b.moved + a.moved;
    }
  }

  lemma InsideUntracked(m: Masks)
    requires Inside(m)
    ensures m.never <= m.tracked && m.live <= m.tracked && m.moved <= m.tracked
    ensures m.tracked == {} ==> m == UNTRACKED
  {
    assert forall k :: k in m.never || k in m.live || k in m.moved ==> k in m.never + m.live + m.moved;
  }

  lemma MasksIdempotent(a: Masks)
    requires Inside(a)
    ensures JoinMasks(a, a) == a
  {
    InsideUntracked(a);
    assert forall s: Mask | s <= a.tracked :: (s + s) * (a.tracked * a.tracked) == s;
  }

  /** The join of three ledgers depends on the order in general: two ledgers that share no projection
      leave nothing tracked, which the next join takes for "no ledger yet". */
  lemma MasksAssociateIff(a: Masks, b: Masks, c: Masks)
    requires Inside(a) && Inside(b) && Inside(c)
    ensures JoinMasks(JoinMasks(a, b), c) == JoinMasks(a, JoinMasks(b, c)) <==>
      || a.tracked == {} || b.tracked == {} || c.tracked == {}
      || (a.tracked * b.tracked != {} && b.tracked * c.tracked != {})
      || (a.tracked * b.tracked == {} && b.tracked * c.tracked == {} && a == c)
  {
    if a.tracked == {} || b.tracked == {} || c.tracked == {} {
    } else if a.tracked * b.tracked != {} && b.tracked * c.tracked != {} {
      MasksAssociate(a, b, c);
    } else if a.tracked * b.tracked == {} {
      NothingShared(a, b);
      if b.tracked * c.tracked == {} {
        NothingShared(b, c);
      } else {
        assert a.tracked * (b.tracked * c.tracked) == {};
      }
    } else {
      NothingShared(b, c);
      assert a.tracked * b.tracked * c.tracked == {};
    }
  }

  lemma NothingShared(a: Masks, b: Masks)
    requires a.tracked != {} && b.tracked != {} && a.tracked * b.tracked == {}
    ensures JoinMasks(a, b) == UNTRACKED
  {
  }

  lemma MasksAssociate(a: Masks, b: Masks, c: Masks)
    requires Inside(a) && Inside(b) && Inside(c)
    requires a.tracked != {} && c.tracked != {} && a.tracked * b.tracked != {} && b.tracked * c.tracked != {}
    ensures JoinMasks(JoinMasks(a, b), c) == JoinMasks(a, JoinMasks(b, c))
  {
    var ab, bc := a.tracked * b.tracked, b.tracked * c.tracked;
    assert ab * c.tracked == a.tracked * bc;
    FieldsAssociate(a.never, b.never, c.never, a.tracked, b.tracked, c.tracked);
    FieldsAssociate(a.live, b.live, c.live, a.tracked, b.tracked, c.tracked);
    FieldsAssociate(a.moved, b.moved, c.moved, a.tracked, b.tracked, c.tracked);
  }

  lemma FieldsAssociate(x: Mask, y: Mask, z: Mask, t: Mask, u: Mask, v: Mask)
    ensures ((x + y) * (t * u) + z) * (t * u * v) == (x + (y + z) * (u * v)) * (t * (u * v))
  {
  }

  // ---------------------------------------------------------------- the whole local and its projections

  datatype Exact = Exact(whole: Fact, plan: Plan, parts: Masks)

  predicate IsEmpty(e: Exact) {
    e.whole == BOTTOM
  }

  /** The masks a plan starts with. */
  function Planned(p: Plan, live: Mask): Masks {
    if IsAdmitted(p) then FromInitMask(p.eligible, live) else UNTRACKED
  }

  function Repopulated(e: Exact): Exact {
    e.(parts := Planned(e.plan, e.plan.eligible))
  }

  /** A projection is moved or made live by a strong update, if the plan has it. */
  predicate CanProject(e: Exact, kind: ProjectionKind, k: bv64, s: State) {
    Admits(e.plan, kind, k) && k in e.parts.tracked && !s.Never?
  }

  function Project(e: Exact, k: bv64, s: State): Exact {
    e.(parts := SetState(e.parts, k, s))
  }

  function ProjectionFact(e: Exact, kind: ProjectionKind, k: bv64): Fact {
    if Admits(e.plan, kind, k) then FactAt(e.parts, k) else BOTTOM
  }

  predicate IsDefinitelyLive(e: Exact) {
    e.whole == Only(Live) && (IsAdmitted(e.plan) ==> DefinitelyLive(e.parts) == e.plan.eligible)
  }

  function Join(a: Exact, b: Exact): Exact {
    if IsEmpty(b) then a
    else if IsEmpty(a) then b
    else
      var whole := Union(a.whole, b.whole);
      if !IsAdmitted(a.plan) && !IsAdmitted(b.plan) then a.(whole := whole)
      else if a.plan != b.plan then Exact(whole, NO_PLAN, UNTRACKED)
      else Exact(whole, a.plan, JoinMasks(a.parts, b.parts))
  }

  /** An admitted plan has exactly its eligible projections tracked, each in some state; without one
      nothing is tracked. */
  predicate Valid(e: Exact) {
    && PlanOk(e.plan)
    && (IsAdmitted(e.plan) ==> e.parts.tracked == e.plan.eligible && Covered(e.parts))
    && (!IsAdmitted(e.plan) ==> e.parts == UNTRACKED)
  }

  lemma PlannedIsCovered(p: Plan, live: Mask)
    requires PlanOk(p)
    ensures Covered(Planned(p, live))
    ensures Planned(p, live).tracked == if IsAdmitted(p) then p.eligible else {}
  {
    assert p.eligible - live + p.eligible * live == p.eligible;
  }

  /** What a projection starts with: nothing outside the plan, Live if the mask has it, else Never. */
  function StartFact(p: Plan, live: Mask, kind: ProjectionKind, k: bv64): Fact {
    if !Admits(p, kind, k) then BOTTOM else if k in live then Only(Live) else Only(State.Never)
  }

  /** Installing a plan gives each projection that state, and the mask is read back from the facts. */
  lemma PlannedFact(p: Plan, live: Mask, kind: ProjectionKind, k: bv64, whole: Fact)
    requires PlanOk(p)
    ensures ProjectionFact(Exact(whole, p, Planned(p, live)), kind, k) == StartFact(p, live, kind, k)
    ensures forall legacy: Mask, j: bv64 ::
      j in ToInitMask(Planned(p, live), legacy) <==> if j in p.eligible then j in live else j in legacy
  {
  }

  lemma ValidKept(e: Exact, p: Plan, live: Mask, kind: ProjectionKind, k: bv64, s: State, whole: Fact)
    requires Valid(e) && PlanOk(p)
    ensures Valid(e.(whole := whole))
    ensures Valid(e.(plan := p, parts := Planned(p, live)))
    ensures CanProject(e, kind, k, s) ==> Valid(Project(e, k, s))
    ensures Valid(Repopulated(e))
  {
    PlannedIsCovered(p, live);
    PlannedIsCovered(e.plan, e.plan.eligible);
    if IsAdmitted(e.plan) {
      SetKeepsCovered(e.parts, k, s);
    }
  }

  lemma JoinIsValid(a: Exact, b: Exact)
    requires Valid(a) && Valid(b)
    ensures Valid(Join(a, b))
  {
    if IsAdmitted(a.plan) && a.plan == b.plan {
      JoinKeepsCovered(a.parts, b.parts);
      assert a.parts.tracked * b.parts.tracked == a.parts.tracked;
    }
  }

  lemma JoinIdempotent(a: Exact)
    requires Valid(a)
    ensures Join(a, a) == a
  {
    if IsAdmitted(a.plan) {
      MasksIdempotent(a.parts);
    }
  }

  /** The empty fact is an identity on both sides, whatever plan it carries. */
  lemma EmptyIsIdentity(a: Exact, e: Exact)
    requires IsEmpty(e)
    ensures Join(a, e) == a
    ensures !IsEmpty(a) ==> Join(e, a) == a
  {
  }

  /** The join commutes unless two different empty facts meet: then the left one stays. */
  lemma JoinCommutesIff(a: Exact, b: Exact)
    requires Valid(a) && Valid(b)
    ensures Join(a, b) == Join(b, a) <==> !(IsEmpty(a) && IsEmpty(b)) || a == b
  {
    if !IsEmpty(a) && !IsEmpty(b) {
      MasksCommute(a.parts, b.parts);
    }
  }

  lemma JoinAssociative(a: Exact, b: Exact, c: Exact)
    requires Valid(a) && Valid(b) && Valid(c)
    ensures Join(Join(a, b), c) == Join(a, Join(b, c))
  {
    if IsEmpty(a) || IsEmpty(b) || IsEmpty(c) {
      UnionOfFull(a.whole, b.whole);
      UnionOfFull(b.whole, c.whole);
    } else if a.plan == b.plan == c.plan && IsAdmitted(a.plan) {
      assert a.parts.tracked * b.parts.tracked == a.parts.tracked;
      MasksAssociateIff(a.parts, b.parts, c.parts);
    } else {
      UnionOfFull(a.whole, b.whole);
      UnionOfFull(b.whole, c.whole);
    }
  }

  lemma UnionOfFull(f: Fact, g: Fact)
    ensures Union(f, g) == BOTTOM <==> f == BOTTOM && g == BOTTOM
  {
  }

  /** A definitely live local is live as a whole and in every eligible projection, and only then. */
  lemma IsDefinitelyLiveIff(e: Exact)
    requires Valid(e)
    ensures IsDefinitelyLive(e) <==>
      e.whole == Only(Live) && forall k | k in e.plan.eligible :: FactAt(e.parts, k) == Only(Live)
  {
    if IsAdmitted(e.plan) {
      InsideUntracked(e.parts);
      forall k
        ensures k in DefinitelyLive(e.parts) <==> FactAt(e.parts, k) == Only(Live)
      {
        DefinitelyLiveMeans(e.parts, k);
      }
      if forall k | k in e.plan.eligible :: FactAt(e.parts, k) == Only(Live) {
        assert forall k | k in DefinitelyLive(e.parts) :: k in e.parts.tracked;
        assert forall k | k in e.plan.eligible :: k in DefinitelyLive(e.parts);
      }
    }
  }
}
