/** Which type may be assigned to which, and what that says about write permission. */
module Compatibility {
  import opened Text
  import opened Types
  import Id = Identity

  /** Same kind, and a may-zero raw pointer does not lose its mark. */
  predicate Base(s: Ty, t: Ty) {
    Kind(s) == Kind(t) && (s.a.n || t.a.n ==> IsRaw(s) && t.a.n)
  }

  predicate IsVoid(t: Ty) {
    t.Atom? && t.leaf.Void?
  }

  predicate IsDynName(name: string) {
    StartsWith(name, "dyn@")
  }

  /** isCompatibleWith: may a value of type s stand where t is asked for? */
  predicate Compatible(s: Ty, t: Ty)
    decreases s, 1
  {
    match s
    case Atom(_, leaf) =>
      if leaf.Primitive? then
        && t.Atom? && t.leaf.Primitive?
        && ((Base(s, t) && leaf.name == t.leaf.name) || (IsIntegerName(leaf.name) && IsIntegerName(t.leaf.name)))
      else Base(s, t)
    case Wrap(_, wrapper, inner) => (match wrapper
      case Raw =>
        && Base(s, t) && IsRaw(t)
        && (IsVoid(inner) || IsVoid(t.inner) ||
            (RawPointeesAgree(inner, t.inner) && Compatible(inner, t.inner)))
      case Unique => Base(s, t) && t.Wrap? && WriteKept(inner, t.inner) && Compatible(inner, t.inner)
      case Shared =>
        if t.Wrap? && t.wrapper.Shared? then Base(s, t) && WriteKept(inner, t.inner) && Compatible(inner, t.inner)
        else !IsPointer(t) && Compatible(inner, t)
      case Ref => Base(s, t) && t.Wrap? && WriteKept(inner, t.inner) && Compatible(inner, t.inner)
      case Slice => Base(s, t) && t.Wrap? && Compatible(inner, t.inner)
      case Uninit => Base(s, t) && t.Wrap? && Compatible(inner, t.inner)
      case Miss => Base(s, t)
      case Place => Base(s, t))
    case Array(_, elem, size, extent) =>
      Base(s, t) && t.Array? && size == t.size && extent == t.extent && Compatible(elem, t.elem)
    case Shape(_, name, args, variant, decl) =>
      && t.Shape?
      && (IsDynName(t.name) ||
          (Id.SameFamily(name, decl, t.name, t.decl) && variant == t.variant
           && CompatibleAll(args, t.args) && Base(s, t)))
    case Callable(_, form, params, ret, mode) =>
      && Base(s, t) && t.Callable? && mode == t.mode && form == t.form
      && Compatible(ret, t.ret) && Id.EqualsAll(params, t.params)
  }

  predicate CompatibleAll(ss: seq<Ty>, ts: seq<Ty>)
    decreases ss, 0
  {
    |ss| == |ts| && (ss != [] ==> Compatible(ss[0], ts[0]) && CompatibleAll(ss[1..], ts[1..]))
  }

  /** A pointee is not writable through the target unless it was writable through the source. */
  predicate WriteKept(s: Ty, t: Ty) {
    t.a.w ==> s.a.w
  }

  /** Two handles behind raw pointers must agree on may-zero and keep the write mark. */
  predicate RawPointeesAgree(s: Ty, t: Ty) {
    IsPointer(s) && IsPointer(t) ==> s.a.n == t.a.n && WriteKept(s, t)
  }

  // ---------------------------------------------------------------- reflexivity

  /** May-zero marks stand on raw pointers only, and parameters are resolved. */
  predicate WellFormed(t: Ty)
    decreases t, 1
  {
    (t.a.n ==> IsRaw(t)) &&
    match t
    case Atom(_, _) => true
    case Wrap(_, _, inner) => WellFormed(inner)
    case Array(_, elem, _, _) => WellFormed(elem)
    case Shape(_, _, args, _, _) => WellFormedAll(args)
    case Callable(_, _, params, ret, _) => NoneUnresolved(params) && WellFormed(ret)
  }

  predicate WellFormedAll(ts: seq<Ty>)
    decreases ts, 0
  {
    ts != [] ==> WellFormed(ts[0]) && WellFormedAll(ts[1..])
  }

  predicate NothingUnresolved(t: Ty)
    decreases t, 1
  {
    match t
    case Atom(_, leaf) => !leaf.Unresolved?
    case Wrap(_, _, inner) => NothingUnresolved(inner)
    case Array(_, elem, _, _) => NothingUnresolved(elem)
    case Shape(_, _, args, _, _) => NoneUnresolved(args)
    case Callable(_, _, params, ret, _) => NoneUnresolved(params) && NothingUnresolved(ret)
  }

  predicate NoneUnresolved(ts: seq<Ty>)
    decreases ts, 0
  {
    ts != [] ==> NothingUnresolved(ts[0]) && NoneUnresolved(ts[1..])
  }

  /** A type equals itself exactly when it is resolved throughout. */
  lemma {:induction false} EqualsSelfIff(t: Ty)
    ensures Id.Equals(t, t) <==> NothingUnresolved(t)
    decreases t, 1
  {
    match t
    case Atom(_, _) =>
    case Wrap(_, _, inner) => EqualsSelfIff(inner);
    case Array(_, elem, _, _) => EqualsSelfIff(elem);
    case Shape(_, _, args, _, _) => EqualsSelfAllIff(args);
    case Callable(_, _, params, ret, _) =>
      EqualsSelfAllIff(params);
      EqualsSelfIff(ret);
  }

  lemma {:induction false} EqualsSelfAllIff(ts: seq<Ty>)
    ensures Id.EqualsAll(ts, ts) <==> NoneUnresolved(ts)
    decreases ts, 0
  {
    if ts != [] {
      EqualsSelfIff(ts[0]);
      EqualsSelfAllIff(ts[1..]);
    }
  }

  lemma {:induction false} CompatibleReflexive(t: Ty)
    requires WellFormed(t)
    ensures Compatible(t, t)
    decreases t, 1
  {
    match t
    case Atom(_, _) =>
    case Wrap(_, _, inner) => CompatibleReflexive(inner);
    case Array(_, elem, _, _) => CompatibleReflexive(elem);
    case Shape(_, _, args, _, _) => AllReflexive(args);
    case Callable(_, _, params, ret, _) =>
      EqualsSelfAllIff(params);
      CompatibleReflexive(ret);
  }

  lemma {:induction false} AllReflexive(ts: seq<Ty>)
    requires WellFormedAll(ts)
    ensures CompatibleAll(ts, ts)
    decreases ts, 0
  {
    if ts != [] {
      CompatibleReflexive(ts[0]);
      AllReflexive(ts[1..]);
    }
  }

  /** What compatibility looks at when a type meets itself. */
  predicate MeetsItself(t: Ty)
    decreases t, 1
  {
    match t
    case Atom(a, leaf) => a.n ==> leaf.Primitive? && IsIntegerName(leaf.name)
    case Wrap(a, wrapper, inner) =>
      if wrapper.Raw? then IsVoid(inner) || MeetsItself(inner)
      else !a.n && (wrapper.Miss? || wrapper.Place? || MeetsItself(inner))
    case Array(a, elem, _, _) => !a.n && MeetsItself(elem)
    case Shape(a, name, args, _, _) => IsDynName(name) || (!a.n && AllMeetThemselves(args))
    case Callable(a, _, params, ret, _) => !a.n && NoneUnresolved(params) && MeetsItself(ret)
  }

  predicate AllMeetThemselves(ts: seq<Ty>)
    decreases ts, 0
  {
    ts != [] ==> MeetsItself(ts[0]) && AllMeetThemselves(ts[1..])
  }

  /** Exactly which types are compatible with themselves, ill-formed ones included. */
  lemma {:induction false} CompatibleSelfIff(t: Ty)
    ensures Compatible(t, t) <==> MeetsItself(t)
    decreases t, 1
  {
    match t
    case Atom(_, _) =>
    case Wrap(_, _, inner) => CompatibleSelfIff(inner);
    case Array(_, elem, _, _) => CompatibleSelfIff(elem);
    case Shape(_, _, args, _, _) => AllCompatibleIff(args);
    case Callable(_, _, params, ret, _) =>
      EqualsSelfAllIff(params);
      CompatibleSelfIff(ret);
  }

  lemma {:induction false} AllCompatibleIff(ts: seq<Ty>)
    ensures CompatibleAll(ts, ts) <==> AllMeetThemselves(ts)
    decreases ts, 0
  {
    if ts != [] {
      CompatibleSelfIff(ts[0]);
      AllCompatibleIff(ts[1..]);
    }
  }

  // ---------------------------------------------------------------- transitivity

  lemma {:induction false} EqualsTransitive(r: Ty, s: Ty, t: Ty)
    requires Id.Equals(r, s) && Id.Equals(s, t)
    ensures Id.Equals(r, t)
    decreases r, 1
  {
    match r
    case Atom(_, _) =>
    case Wrap(_, _, inner) => EqualsTransitive(inner, s.inner, t.inner);
    case Array(_, elem, _, _) => EqualsTransitive(elem, s.elem, t.elem);
    case Shape(_, _, args, _, _) => AllEqualsTransitive(args, s.args, t.args);
    case Callable(_, _, params, ret, _) =>
      AllEqualsTransitive(params, s.params, t.params);
      EqualsTransitive(ret, s.ret, t.ret);
  }

  lemma {:induction false} AllEqualsTransitive(rs: seq<Ty>, ss: seq<Ty>, ts: seq<Ty>)
    requires Id.EqualsAll(rs, ss) && Id.EqualsAll(ss, ts)
    ensures Id.EqualsAll(rs, ts)
    decreases rs, 0
  {
    if rs != [] {
      EqualsTransitive(rs[0], ss[0], ts[0]);
      AllEqualsTransitive(rs[1..], ss[1..], ts[1..]);
    }
  }

  /** A type through which compatibility can be chained: where it is compared part by part it has no raw
      pointer to void, which is compatible with every raw pointer, and no bound shape by a dynamic name. */
  predicate Links(t: Ty)
    decreases t, 1
  {
    match t
    case Atom(_, _) => true
    case Wrap(_, wrapper, inner) =>
      wrapper.Miss? || wrapper.Place? || (Links(inner) && !(wrapper.Raw? && IsVoid(inner)))
    case Array(_, elem, _, _) => Links(elem)
    case Shape(_, name, args, _, decl) => if IsDynName(name) then decl.NoDecl? else LinksAll(args)
    case Callable(_, _, _, ret, _) => Links(ret)
  }

  predicate LinksAll(ts: seq<Ty>)
    decreases ts, 0
  {
    ts != [] ==> Links(ts[0]) && LinksAll(ts[1..])
  }

  lemma BaseTransitive(r: Ty, s: Ty, t: Ty)
    requires Base(r, s) && Base(s, t)
    ensures Base(r, t)
  {
  }

  /** Nothing but a handle is compatible with a handle. */
  lemma HandleNeedsHandle(s: Ty, t: Ty)
    requires Compatible(s, t) && IsPointer(t)
    ensures IsPointer(s) && s.wrapper == t.wrapper && Base(s, t)
  {
  }

  /** Assignability can be chained through any type that links. */
  lemma {:induction false} CompatibleTransitive(r: Ty, s: Ty, t: Ty)
    requires Links(s) && Compatible(r, s) && Compatible(s, t)
    ensures Compatible(r, t)
    decreases r, s, 1
  {
    match r
    case Atom(_, _) => AtomTransitive(r, s, t);
    case Wrap(_, wrapper, _) =>
      if wrapper.Shared? {
        SharedTransitive(r, s, t);
      } else if wrapper.Raw? {
        RawTransitive(r, s, t);
      } else {
        WrapTransitive(r, s, t);
      }
    case Array(_, elem, _, _) =>
      BaseTransitive(r, s, t);
      CompatibleTransitive(elem, s.elem, t.elem);
    case Shape(_, _, _, _, _) => ShapeTransitive(r, s, t);
    case Callable(_, _, params, ret, _) =>
      BaseTransitive(r, s, t);
      AllEqualsTransitive(params, s.params, t.params);
      CompatibleTransitive(ret, s.ret, t.ret);
  }

  lemma AtomTransitive(r: Ty, s: Ty, t: Ty)
    requires r.Atom? && Compatible(r, s) && Compatible(s, t)
    ensures Compatible(r, t)
  {
  }

  lemma {:induction false} SharedTransitive(r: Ty, s: Ty, t: Ty)
    requires r.Wrap? && r.wrapper.Shared? && Links(s) && Compatible(r, s) && Compatible(s, t)
    ensures Compatible(r, t)
    decreases r, s, 0
  {
    if s.Wrap? && s.wrapper.Shared? {
      if t.Wrap? && t.wrapper.Shared? {
        BaseTransitive(r, s, t);
        CompatibleTransitive(r.inner, s.inner, t.inner);
      } else {
        CompatibleTransitive(r.inner, s.inner, t);
      }
    } else {
      if IsPointer(t) {
        HandleNeedsHandle(s, t);
      } else {
        CompatibleTransitive(r.inner, s, t);
      }
    }
  }

  lemma {:induction false} RawTransitive(r: Ty, s: Ty, t: Ty)
    requires IsRaw(r) && Links(s) && Compatible(r, s) && Compatible(s, t)
    ensures Compatible(r, t)
    decreases r, s, 0
  {
    BaseTransitive(r, s, t);
    if !IsVoid(r.inner) && !IsVoid(t.inner) {
      CompatibleTransitive(r.inner, s.inner, t.inner);
      if IsPointer(t.inner) {
        HandleNeedsHandle(s.inner, t.inner);
      }
    }
  }

  lemma {:induction false} WrapTransitive(r: Ty, s: Ty, t: Ty)
    requires r.Wrap? && !r.wrapper.Raw? && !r.wrapper.Shared? && Links(s) && Compatible(r, s) && Compatible(s, t)
    ensures Compatible(r, t)
    decreases r, s, 0
  {
    BaseTransitive(r, s, t);
    if !r.wrapper.Miss? && !r.wrapper.Place? {
      CompatibleTransitive(r.inner, s.inner, t.inner);
    }
  }

  lemma {:induction false} ShapeTransitive(r: Ty, s: Ty, t: Ty)
    requires r.Shape? && Links(s) && Compatible(r, s) && Compatible(s, t)
    ensures Compatible(r, t)
    decreases r, s, 0
  {
    if !IsDynName(t.name) {
      BaseTransitive(r, s, t);
      AllTransitive(r.args, s.args, t.args);
    }
  }

  lemma {:induction false} AllTransitive(rs: seq<Ty>, ss: seq<Ty>, ts: seq<Ty>)
    requires LinksAll(ss) && CompatibleAll(rs, ss) && CompatibleAll(ss, ts)
    ensures CompatibleAll(rs, ts)
    decreases rs, ss, 0
  {
    if rs != [] {
      CompatibleTransitive(rs[0], ss[0], ts[0]);
      AllTransitive(rs[1..], ss[1..], ts[1..]);
    }
  }

  ghost predicate ChainsThrough(s: Ty) {
    forall r: Ty, t: Ty :: Compatible(r, s) && Compatible(s, t) ==> Compatible(r, t)
  }

  /** A pair that a type without links breaks, of the same outer kind and with the same marks. */
  predicate Breaks(s: Ty, r: Ty, t: Ty) {
    && Compatible(r, s) && Compatible(s, t) && !Compatible(r, t)
    && r.a == s.a == t.a && !r.Atom? && !t.Atom?
  }

  lemma {:induction false} BrokenChain(s: Ty) returns (r: Ty, t: Ty)
    requires WellFormed(s) && !Links(s)
    ensures Breaks(s, r, t)
    decreases s, 1
  {
    match s
    case Wrap(a, wrapper, inner) =>
      if wrapper.Raw? && IsVoid(inner) {
        r, t := Wrap(a, Raw, Atom(PLAIN, Unit)), Wrap(a, Raw, Atom(PLAIN, Leaf.Never));
      } else {
        var r1, t1 := BrokenChain(inner);
        r, t := Wrap(a, wrapper, r1), Wrap(a, wrapper, t1);
      }
    case Array(a, elem, size, extent) =>
      var r1, t1 := BrokenChain(elem);
      r, t := Array(a, r1, size, extent), Array(a, t1, size, extent);
    case Shape(a, name, args, variant, decl) =>
      if IsDynName(name) {
        r, t := Shape(a, "", args, variant, NoDecl), Shape(a, "", args, variant, decl);
        AllReflexive(args);
      } else {
        var rs, ts := BrokenArgs(args);
        r, t := Shape(a, name, rs, variant, decl), Shape(a, name, ts, variant, decl);
      }
    case Callable(a, form, params, ret, mode) =>
      var r1, t1 := BrokenChain(ret);
      EqualsSelfAllIff(params);
      r, t := Callable(a, form, params, r1, mode), Callable(a, form, params, t1, mode);
  }

  lemma {:induction false} BrokenArgs(ss: seq<Ty>) returns (rs: seq<Ty>, ts: seq<Ty>)
    requires WellFormedAll(ss) && !LinksAll(ss)
    ensures CompatibleAll(rs, ss) && CompatibleAll(ss, ts) && !CompatibleAll(rs, ts)
    decreases ss, 0
  {
    if Links(ss[0]) {
      var rs1, ts1 := BrokenArgs(ss[1..]);
      CompatibleReflexive(ss[0]);
      rs, ts := [ss[0]] + rs1, [ss[0]] + ts1;
    } else {
      var r1, t1 := BrokenChain(ss[0]);
      AllReflexive(ss[1..]);
      rs, ts := [r1] + ss[1..], [t1] + ss[1..];
    }
  }

  /** Assignability can be chained through a type exactly when it links. */
  lemma ChainsThroughIff(s: Ty)
    requires WellFormed(s)
    ensures ChainsThrough(s) <==> Links(s)
  {
    if Links(s) {
      forall r: Ty, t: Ty | Compatible(r, s) && Compatible(s, t)
        ensures Compatible(r, t)
      {
        CompatibleTransitive(r, s, t);
      }
    } else {
      var r, t := BrokenChain(s);
    }
  }

  // ---------------------------------------------------------------- write permission

  /** The part of s that a value of type t is read from: a shared handle gives access to its pointee. */
  function Aligned(s: Ty, t: Ty): Ty {
    if s.Wrap? && s.wrapper.Shared? && !IsPointer(t) then Aligned(s.inner, t) else s
  }

  predicate IsManaged(t: Ty) {
    IsPointer(t) && !t.wrapper.Raw?
  }

  /** At every managed handle layer of t, through handles, arrays, slices, uninit wrappers, shape arguments
      and the results of callables, the pointee is writable only if it is writable at the layer of s it
      comes from; a deep bound goes on behind raw pointers. */
  predicate NoGain(s: Ty, t: Ty, deep: bool)
    decreases t, 1
  {
    var from := Aligned(s, t);
    match t
    case Wrap(_, wrapper, inner) =>
      if IsManaged(t) || wrapper.Slice? || wrapper.Uninit? || (wrapper.Raw? && deep) then
        && from.Wrap? && from.wrapper == wrapper
        && (IsManaged(t) ==> WriteKept(from.inner, inner)) && NoGain(from.inner, inner, deep)
      else true
    case Array(_, elem, _, _) => from.Array? && NoGain(from.elem, elem, deep)
    case Shape(_, name, args, _, _) => IsDynName(name) || (from.Shape? && NoGainAll(from.args, args, deep))
    case Callable(_, _, _, ret, _) => from.Callable? && NoGain(from.ret, ret, deep)
    case Atom(_, _) => true
  }

  predicate NoGainAll(ss: seq<Ty>, ts: seq<Ty>, deep: bool)
    decreases ts, 0
  {
    |ss| == |ts| && (ts != [] ==> NoGain(ss[0], ts[0], deep) && NoGainAll(ss[1..], ts[1..], deep))
  }

  lemma {:induction false} NoGainReflexive(t: Ty, deep: bool)
    ensures NoGain(t, t, deep)
    decreases t, 1
  {
    match t
    case Wrap(_, _, inner) => NoGainReflexive(inner, deep);
    case Array(_, elem, _, _) => NoGainReflexive(elem, deep);
    case Shape(_, _, args, _, _) => NoGainsReflexive(args, deep);
    case Callable(_, _, _, ret, _) => NoGainReflexive(ret, deep);
    case Atom(_, _) =>
  }

  lemma {:induction false} NoGainsReflexive(ts: seq<Ty>, deep: bool)
    ensures NoGainAll(ts, ts, deep)
    decreases ts, 0
  {
    if ts != [] {
      NoGainReflexive(ts[0], deep);
      NoGainsReflexive(ts[1..], deep);
    }
  }

  /** Where the bound looks, no bound shape goes by a dynamic name, and no raw pointer to void stands. */
  predicate Keeps(t: Ty, deep: bool)
    decreases t, 1
  {
    match t
    case Atom(_, _) => true
    case Wrap(_, wrapper, inner) =>
      || wrapper.Miss? || wrapper.Place? || (wrapper.Raw? && !deep)
      || (Keeps(inner, deep) && !(wrapper.Raw? && IsVoid(inner)))
    case Array(_, elem, _, _) => Keeps(elem, deep)
    case Shape(_, name, args, _, decl) => if IsDynName(name) then decl.NoDecl? else KeepsAll(args, deep)
    case Callable(_, _, _, ret, _) => Keeps(ret, deep)
  }

  predicate KeepsAll(ts: seq<Ty>, deep: bool)
    decreases ts, 0
  {
    ts != [] ==> Keeps(ts[0], deep) && KeepsAll(ts[1..], deep)
  }

  /** Alignment looks at nothing but whether a handle is asked for. */
  lemma {:induction false} AlignedAlike(r: Ty, s: Ty, t: Ty)
    requires Compatible(s, t) && (IsPointer(s) ==> IsPointer(t) || !s.wrapper.Shared?)
    ensures Aligned(r, s) == Aligned(r, t)
  {
    if IsPointer(t) {
      HandleNeedsHandle(s, t);
    }
    AlignedByKind(r, s, t);
  }

  lemma {:induction false} AlignedByKind(r: Ty, s: Ty, t: Ty)
    requires IsPointer(s) == IsPointer(t)
    ensures Aligned(r, s) == Aligned(r, t)
  {
    if r.Wrap? && r.wrapper.Shared? {
      AlignedByKind(r.inner, s, t);
    }
  }

  /** One more assignment along a chain gains nothing. */
  lemma {:induction false} NoGainStep(r: Ty, s: Ty, t: Ty, deep: bool)
    requires Keeps(s, deep) && NoGain(r, s, deep) && Compatible(s, t)
    ensures NoGain(r, t, deep)
    decreases s, r, 1
  {
    if s.Wrap? && s.wrapper.Shared? && !IsPointer(t) {
      NoGainStep(r.inner, s.inner, t, deep);
    } else {
      AlignedAlike(r, s, t);
      match s
      case Atom(_, _) =>
      case Wrap(_, _, _) => NoGainWrap(r, s, t, deep);
      case Array(_, elem, _, _) => NoGainStep(Aligned(r, s).elem, elem, t.elem, deep);
      case Shape(_, _, _, _, _) =>
        if !IsDynName(t.name) {
          NoGainSteps(Aligned(r, s).args, s.args, t.args, deep);
        }
      case Callable(_, _, _, ret, _) => NoGainStep(Aligned(r, s).ret, ret, t.ret, deep);
    }
  }

  lemma {:induction false} NoGainWrap(r: Ty, s: Ty, t: Ty, deep: bool)
    requires s.Wrap? && Keeps(s, deep) && NoGain(r, s, deep) && Compatible(s, t)
    requires s.wrapper.Shared? ==> IsPointer(t)
    ensures NoGain(r, t, deep)
    decreases s, r, 0
  {
    AlignedAlike(r, s, t);
    if IsManaged(s) || s.wrapper.Slice? || s.wrapper.Uninit? || (s.wrapper.Raw? && deep && !IsVoid(t.inner)) {
      NoGainStep(Aligned(r, s).inner, s.inner, t.inner, deep);
    }
  }

  lemma {:induction false} NoGainSteps(rs: seq<Ty>, ss: seq<Ty>, ts: seq<Ty>, deep: bool)
    requires KeepsAll(ss, deep) && NoGainAll(rs, ss, deep) && CompatibleAll(ss, ts)
    ensures NoGainAll(rs, ts, deep)
    decreases ss, rs, 0
  {
    if ss != [] {
      NoGainStep(rs[0], ss[0], ts[0], deep);
      NoGainSteps(rs[1..], ss[1..], ts[1..], deep);
    }
  }

  /** Along any chain of assignments no managed handle's pointee becomes writable that was not; behind
      raw pointers, too, when the chain has none to void. */
  lemma {:induction false} ChainGainsNothing(ts: seq<Ty>, deep: bool)
    requires ts != [] && forall i | 0 <= i < |ts| :: Keeps(ts[i], deep)
    requires forall i | 0 <= i < |ts| - 1 :: Compatible(ts[i], ts[i + 1])
    ensures NoGain(ts[0], ts[|ts| - 1], deep)
  {
    if |ts| == 1 {
      NoGainReflexive(ts[0], deep);
    } else {
      var init := ts[..|ts| - 1];
      assert forall i | 0 <= i < |init| :: init[i] == ts[i];
      ChainGainsNothing(init, deep);
      assert Compatible(ts[|ts| - 2], ts[|ts| - 2 + 1]);
      NoGainStep(ts[0], ts[|ts| - 2], ts[|ts| - 1], deep);
    }
  }

  ghost predicate GainsNothingThrough(s: Ty, deep: bool) {
    forall r: Ty, t: Ty :: NoGain(r, s, deep) && Compatible(s, t) ==> NoGain(r, t, deep)
  }

  lemma {:induction false} BrokenBound(s: Ty, deep: bool) returns (r: Ty, t: Ty)
    requires WellFormed(s) && !Keeps(s, deep)
    ensures NoGain(r, s, deep) && Compatible(s, t) && !NoGain(r, t, deep) && r.a == s.a == t.a
    ensures !(r.Wrap? && r.wrapper.Shared?) || (IsPointer(s) && IsPointer(t))
    decreases s, 1
  {
    match s
    case Wrap(a, wrapper, inner) =>
      if wrapper.Raw? && IsVoid(inner) {
        r, t := Wrap(a, Raw, Atom(PLAIN, Unit)), Wrap(a, Raw, Wrap(PLAIN, Unique, inner));
      } else {
        var r1, t1 := BrokenBound(inner, deep);
        r, t := Wrap(a, wrapper, r1), Wrap(a, wrapper, t1);
      }
    case Array(a, elem, size, extent) =>
      var r1, t1 := BrokenBound(elem, deep);
      r, t := Array(a, r1, size, extent), Array(a, t1, size, extent);
    case Shape(a, name, args, variant, decl) =>
      if IsDynName(name) {
        r, t := Atom(a, Unit), Shape(a, "", args, variant, decl);
        AllReflexive(args);
      } else {
        var rs, ts := BrokenBounds(args, deep);
        r, t := Shape(a, name, rs, variant, decl), Shape(a, name, ts, variant, decl);
      }
    case Callable(a, form, params, ret, mode) =>
      var r1, t1 := BrokenBound(ret, deep);
      EqualsSelfAllIff(params);
      r, t := Callable(a, form, params, r1, mode), Callable(a, form, params, t1, mode);
  }

  lemma {:induction false} BrokenBounds(ss: seq<Ty>, deep: bool) returns (rs: seq<Ty>, ts: seq<Ty>)
    requires WellFormedAll(ss) && !KeepsAll(ss, deep)
    ensures NoGainAll(rs, ss, deep) && CompatibleAll(ss, ts) && !NoGainAll(rs, ts, deep)
    decreases ss, 0
  {
    if Keeps(ss[0], deep) {
      var rs1, ts1 := BrokenBounds(ss[1..], deep);
      CompatibleReflexive(ss[0]);
      NoGainReflexive(ss[0], deep);
      rs, ts := [ss[0]] + rs1, [ss[0]] + ts1;
    } else {
      var r1, t1 := BrokenBound(ss[0], deep);
      AllReflexive(ss[1..]);
      NoGainsReflexive(ss[1..], deep);
      rs, ts := [r1] + ss[1..], [t1] + ss[1..];
    }
  }

  /** Passing through a type never adds write permission exactly when it keeps the bound. */
  lemma GainsNothingIff(s: Ty, deep: bool)
    requires WellFormed(s)
    ensures GainsNothingThrough(s, deep) <==> Keeps(s, deep)
  {
    if Keeps(s, deep) {
      forall r: Ty, t: Ty | NoGain(r, s, deep) && Compatible(s, t)
        ensures NoGain(r, t, deep)
      {
        NoGainStep(r, s, t, deep);
      }
    } else {
      var r, t := BrokenBound(s, deep);
    }
  }

  /** The deep bound is kept by exactly the types through which assignability can be chained. */
  lemma {:induction false} DeepKeepsIff(t: Ty)
    ensures Keeps(t, true) <==> Links(t)
    decreases t, 1
  {
    match t
    case Atom(_, _) =>
    case Wrap(_, _, inner) => DeepKeepsIff(inner);
    case Array(_, elem, _, _) => DeepKeepsIff(elem);
    case Shape(_, _, args, _, _) => AllDeepKeepsIff(args);
    case Callable(_, _, _, ret, _) => DeepKeepsIff(ret);
  }

  lemma {:induction false} AllDeepKeepsIff(ts: seq<Ty>)
    ensures KeepsAll(ts, true) <==> LinksAll(ts)
    decreases ts, 0
  {
    if ts != [] {
      DeepKeepsIff(ts[0]);
      AllDeepKeepsIff(ts[1..]);
    }
  }

  const WRITABLE := PLAIN.(w := true)

  /** Raw pointers are outside this: one keeps its pointee from becoming writable exactly when it is
      writable already. */
  lemma RawGainsIff(s: Ty)
    requires IsRaw(s)
    ensures (forall t: Ty :: Compatible(s, t) ==> IsRaw(t) && WriteKept(s.inner, t.inner)) <==> s.inner.a.w
  {
    var t := Wrap(s.a, Raw, Atom(WRITABLE, Void));
    assert Compatible(s, t);
  }

  /** What a type is behind its shared handles. */
  function Unshared(t: Ty): Ty {
    if t.Wrap? && t.wrapper.Shared? then Unshared(t.inner) else t
  }

  lemma {:induction false} SoulDecides(s: Ty, t: Ty)
    requires Compatible(s, t) && (IsPointer(Unshared(s)) || IsVoid(Unshared(s)))
    ensures IsPointer(t) || IsVoid(t)
  {
    if s.Wrap? && s.wrapper.Shared? && !IsPointer(t) {
      SoulDecides(s.inner, t);
    }
  }

  lemma {:induction false} WritableSoul(s: Ty)
    requires WellFormed(s) && !IsPointer(Unshared(s))
    ensures var soul := Unshared(s); Compatible(s, SetAttr(soul, soul.a.(w := true)))
  {
    if s.Wrap? && s.wrapper.Shared? {
      WritableSoul(s.inner);
    } else {
      CompatibleReflexive(s);
    }
  }

  /** Leaving raw pointers to void aside, it also does when a handle stands behind it and behind any
      shared handles. */
  lemma RawGainsPastVoidIff(s: Ty)
    requires IsRaw(s) && WellFormed(s) && !IsVoid(s.inner)
    ensures var soul := Unshared(s.inner);
      (forall t: Ty :: Compatible(s, t) && !IsVoid(t.inner) ==> WriteKept(s.inner, t.inner)) <==>
      s.inner.a.w || IsPointer(soul) || IsVoid(soul)
  {
    var soul := Unshared(s.inner);
    if IsPointer(soul) || IsVoid(soul) {
      forall t: Ty | Compatible(s, t) && !IsVoid(t.inner)
        ensures WriteKept(s.inner, t.inner)
      {
        SoulDecides(s.inner, t.inner);
        HandleNeedsHandle(s.inner, t.inner);
      }
    } else if !s.inner.a.w {
      var t := Wrap(s.a, Raw, SetAttr(soul, soul.a.(w := true)));
      WritableSoul(s.inner);
      assert Compatible(s, t) && !IsVoid(t.inner) && !WriteKept(s.inner, t.inner);
    }
  }

  /** An outcome or a place is compared by its kind alone, so a handle inside it always can gain. */
  lemma OutcomeGains(s: Ty) returns (t: Ty)
    requires s.Wrap? && (s.wrapper.Miss? || s.wrapper.Place?) && !s.a.n
    ensures Compatible(s, t) && t.Wrap? && t.wrapper == s.wrapper && !NoGain(s.inner, t.inner, false)
  {
    var unique := s.inner.Wrap? && s.inner.wrapper.Unique?;
    t := Wrap(s.a, s.wrapper, Wrap(PLAIN, if unique then Ref else Unique, Atom(WRITABLE, Void)));
  }
}
