/** The mutable exact-place objects over 64-bit words; every method is proved against the set-level
    functions of PlaceState. */
module PlaceCells {
  import opened Words
  import opened PlaceState

  datatype WordPlan = WordPlan(kind: ProjectionKind, eligible: bv64)

  function PlanOf(p: WordPlan): Plan {
    Plan(p.kind, Bits(p.eligible))
  }

  /** PartialMovePlan's factories: an empty mask makes no plan. */
  method MakePlan(kind: ProjectionKind, eligible: bv64) returns (p: WordPlan)
    requires !kind.NoProjection?
    ensures PlanOk(PlanOf(p))
    ensures PlanOf(p) == if Bits(eligible) == {} then NO_PLAN else Plan(kind, Bits(eligible))
  {
    var none := IsZero(eligible);
    if none {
      var zero := Zero();
      return WordPlan(NoProjection, zero);
    }
    p := WordPlan(kind, eligible);
  }

  method PlanIsAdmitted(p: WordPlan) returns (admitted: bool)
    ensures admitted <==> IsAdmitted(PlanOf(p))
  {
    var none := IsZero(p.eligible);
    admitted := !p.kind.NoProjection? && !none;
  }

  class ProjectionPlaceFacts {
    var tracked: bv64
    var never: bv64
    var live: bv64
    var moved: bv64

    ghost function Value(): Masks
      reads this
    {
      Masks(Bits(tracked), Bits(never), Bits(live), Bits(moved))
    }

    constructor ()
      ensures Value() == UNTRACKED
    {
      new;
      Clear();
    }

    method Clear()
      modifies this
      ensures Value() == UNTRACKED
    {
      var zero := Zero();
      tracked, never, live, moved := zero, zero, zero, zero;
    }

    /** Assigns fromLegacyInitMask's ledger. */
    method StartFrom(eligible: bv64, initMask: bv64)
      modifies this
      ensures Value() == FromInitMask(Bits(eligible), Bits(initMask))
    {
      tracked := eligible;
      never := AndNot(eligible, initMask);
      live := And(eligible, initMask);
      moved := Zero();
    }

    method IsTracking() returns (tracking: bool)
      ensures tracking <==> Value().tracked != {}
    {
      var none := IsZero(tracked);
      tracking := !none;
    }

    method StateAt(bit: bv64) returns (result: Fact)
      ensures result == FactAt(Value(), bit)
    {
      var tracks := Test(tracked, bit);
      if !tracks {
        return BOTTOM;
      }
      var isNever := Test(never, bit);
      var isLive := Test(live, bit);
      var isMoved := Test(moved, bit);
      result := BOTTOM;
      if isNever {
        result := Union(result, Only(Never));
      }
      if isLive {
        result := Union(result, Only(Live));
      }
      if isMoved {
        result := Union(result, Only(Moved));
      }
    }

    method Set(bit: bv64, s: State)
      modifies this
      ensures Value() == SetState(old(Value()), bit, s)
    {
      var tracks := Test(tracked, bit);
      if !tracks {
        return;
      }
      var mask := One(bit);
      never := SetField(never, mask, s.Never?);
      live := SetField(live, mask, s.Live?);
      moved := SetField(moved, mask, s.Moved?);
    }

    /** A field without the projection's bit, or with it. */
    static method SetField(field: bv64, mask: bv64, on: bool) returns (r: bv64)
      ensures Bits(r) == Bits(field) - Bits(mask) + (if on then Bits(mask) else {})
    {
      r := AndNot(field, mask);
      if on {
        r := Or(r, mask);
      }
    }

    method DefinitelyLiveMask() returns (mask: bv64)
      ensures Bits(mask) == DefinitelyLive(Value())
    {
      var other := Or(never, moved);
      mask := AndNot(live, other);
    }

    method ApplyToLegacyInitMask(legacy: bv64) returns (mask: bv64)
      ensures Bits(mask) == ToInitMask(Value(), Bits(legacy))
    {
      var tracking := IsTracking();
      if !tracking {
        return legacy;
      }
      var untouched := AndNot(legacy, tracked);
      var sure := DefinitelyLiveMask();
      mask := Or(untouched, sure);
    }

    method Assign(other: ProjectionPlaceFacts)
      modifies this
      ensures Value() == old(other.Value())
    {
      tracked, never, live, moved := other.tracked, other.never, other.live, other.moved;
    }

    method JoinWith(other: ProjectionPlaceFacts)
      modifies this
      ensures Value() == JoinMasks(old(Value()), old(other.Value()))
    {
      var tracking := IsTracking();
      if !tracking {
        Assign(other);
        return;
      }
      var otherTracking := other.IsTracking();
      if !otherTracking {
        return;
      }
      var common := And(tracked, other.tracked);
      var n := Or(never, other.never);
      var l := Or(live, other.live);
      var m := Or(moved, other.moved);
      never := And(n, common);
      live := And(l, common);
      moved := And(m, common);
      tracked := common;
    }
  }

  /** The facts of one local: they own their projection ledger. */
  class ExactPlaceFacts {
    var whole: Fact
    var plan: WordPlan
    const projections: ProjectionPlaceFacts

    ghost function Value(): Exact
      reads this, projections
    {
      Exact(whole, PlanOf(plan), projections.Value())
    }

    constructor (fact: Fact)
      ensures Value() == Exact(fact, NO_PLAN, UNTRACKED) && Valid(Value()) && fresh(projections)
    {
      whole := fact;
      projections := new ProjectionPlaceFacts();
      new;
      var zero := Zero();
      plan := WordPlan(NoProjection, zero);
    }

    method SetPlan(p: WordPlan, initMask: bv64)
      requires PlanOk(PlanOf(p))
      modifies this, projections
      ensures Value() == old(Value()).(plan := PlanOf(p), parts := Planned(PlanOf(p), Bits(initMask)))
      ensures Valid(Value())
      ensures forall kind, k :: ProjectionFact(Value(), kind, k) == StartFact(PlanOf(p), Bits(initMask), kind, k)
    {
      plan := p;
      PlannedIsCovered(PlanOf(p), Bits(initMask));
      forall kind, k
        ensures ProjectionFact(Exact(whole, PlanOf(p), Planned(PlanOf(p), Bits(initMask))), kind, k)
             == StartFact(PlanOf(p), Bits(initMask), kind, k)
      {
        PlannedFact(PlanOf(p), Bits(initMask), kind, k, whole);
      }
      var admitted := PlanIsAdmitted(p);
      if admitted {
        projections.StartFrom(p.eligible, initMask);
      } else {
        projections.Clear();
      }
    }

    method TransitionWhole(expected: Fact, fact: Fact) returns (ok: bool)
      modifies this`whole
      ensures ok == (old(whole) == expected)
      ensures Value() == if ok then old(Value()).(whole := fact) else old(Value())
      ensures Valid(old(Value())) ==> Valid(Value())
    {
      if whole != expected {
        return false;
      }
      whole := fact;
      return true;
    }

    method TransitionProjection(kind: ProjectionKind, bit: bv64, s: State) returns (ok: bool)
      modifies projections
      ensures ok == CanProject(old(Value()), kind, bit, s)
      ensures Value() == if ok then Project(old(Value()), bit, s) else old(Value())
      ensures Valid(old(Value())) ==> Valid(Value())
    {
      var eligible := Test(plan.eligible, bit);
      var tracks := Test(projections.tracked, bit);
      if plan.kind != kind || !eligible || !tracks || s.Never? {
        return false;
      }
      if Valid(Value()) {
        SetKeepsCovered(projections.Value(), bit, s);
      }
      projections.Set(bit, s);
      return true;
    }

    method FactOfProjection(kind: ProjectionKind, bit: bv64) returns (fact: Fact)
      ensures fact == ProjectionFact(Value(), kind, bit)
    {
      var eligible := Test(plan.eligible, bit);
      if plan.kind != kind || !eligible {
        return BOTTOM;
      }
      fact := projections.StateAt(bit);
    }

    method DefinitelyLiveNow() returns (sure: bool)
      ensures sure == IsDefinitelyLive(Value())
    {
      if whole != Only(Live) {
        return false;
      }
      var admitted := PlanIsAdmitted(plan);
      if !admitted {
        return true;
      }
      var mask := projections.DefinitelyLiveMask();
      sure := Same(mask, plan.eligible);
    }

    method RepopulateAllProjections()
      modifies projections
      ensures Value() == Repopulated(old(Value()))
      ensures Valid(old(Value())) ==> Valid(Value())
    {
      if PlanOk(PlanOf(plan)) {
        PlannedIsCovered(PlanOf(plan), Bits(plan.eligible));
      }
      var admitted := PlanIsAdmitted(plan);
      if admitted {
        projections.StartFrom(plan.eligible, plan.eligible);
      } else {
        projections.Clear();
      }
    }

    /** The joined facts are a copy: no two locals share a ledger. */
    method JoinWith(other: ExactPlaceFacts)
      requires projections != other.projections || this == other
      modifies this, projections
      ensures Value() == Join(old(Value()), old(other.Value()))
      ensures Valid(old(Value())) && Valid(old(other.Value())) ==> Valid(Value())
    {
      if Valid(Value()) && Valid(other.Value()) {
        JoinIsValid(Value(), other.Value());
      }
      if other.whole == BOTTOM {
        return;
      }
      if whole == BOTTOM {
        whole, plan := other.whole, other.plan;
        projections.Assign(other.projections);
        return;
      }
      var admitted := PlanIsAdmitted(plan);
      var otherAdmitted := PlanIsAdmitted(other.plan);
      var sameMask := Same(plan.eligible, other.plan.eligible);
      var same := plan.kind == other.plan.kind && sameMask;
      whole := Union(whole, other.whole);
      if !admitted && !otherAdmitted {
        return;
      }
      if !same {
        var zero := Zero();
        plan := WordPlan(NoProjection, zero);
        projections.Clear();
        return;
      }
      projections.JoinWith(other.projections);
    }
  }
}
