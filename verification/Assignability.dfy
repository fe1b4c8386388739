/** What may stand for what: assignable types are the same type up to marks, integer names, shared handles
    and what is inside outcomes and places. */
module Assignability {
  import opened Compatibility
  import opened Types
  import Id = Identity

  // ---------------------------------------------------------------- kinds, primitives, shapes

  /** The part that is read has the kind that is asked for. */
  lemma {:induction false} SameKind(s: Ty, t: Ty)
    requires Compatible(s, t)
    ensures Kind(Aligned(s, t)) == Kind(t)
  {
    if s.Wrap? && s.wrapper.Shared? && !IsPointer(t) {
      SameKind(s.inner, t);
    }
  }

  /** Primitives: the same name without may-zero marks, or two integers; so no float and no bool stands
      for an integer, nor the other way round. */
  lemma PrimitivesIff(a: Attr, x: string, b: Attr, y: string)
    ensures Compatible(Atom(a, Primitive(x)), Atom(b, Primitive(y))) <==>
      (x == y && !a.n && !b.n) || (IsIntegerName(x) && IsIntegerName(y))
    ensures IsIntegerName(x) ==> x != "f32" && x != "f64" && x != "bool"
  {
  }

  /** Only a shape of the same declaration and variant stands for a bound shape, if its name is not
      dynamic; a shared handle may be in front of it. */
  lemma {:induction false} SameDeclaration(s: Ty, t: Ty)
    requires Compatible(s, t) && t.Shape? && !IsDynName(t.name)
    ensures var from := Aligned(s, t);
      && from.Shape? && from.variant == t.variant && |from.args| == |t.args|
      && (t.decl.Decl? ==> from.decl.Decl? && Id.DeclIdentity(from.decl) == Id.DeclIdentity(t.decl))
      && (t.decl.NoDecl? ==> from.decl.NoDecl? && from.name == t.name)
  {
    if s.Wrap? {
      SameDeclaration(s.inner, t);
    } else {
      SameLength(s.args, t.args);
    }
  }

  lemma SameLength(ss: seq<Ty>, ts: seq<Ty>)
    requires CompatibleAll(ss, ts)
    ensures |ss| == |ts|
  {
  }

  // ---------------------------------------------------------------- every kind

  /** A type without marks, shared handles and the items of outcomes and places, all integers alike. */
  function Normal(t: Ty): Ty
    decreases t, 1
  {
    match t
    case Atom(_, leaf) => Atom(PLAIN, if leaf.Primitive? && IsIntegerName(leaf.name) then Primitive("i32") else leaf)
    case Wrap(_, wrapper, inner) =>
      if wrapper.Shared? then Normal(inner)
      else Wrap(PLAIN, wrapper, if wrapper.Miss? || wrapper.Place? then Atom(PLAIN, Unit) else Normal(inner))
    case Array(_, elem, size, extent) => Array(PLAIN, Normal(elem), size, extent)
    case Shape(_, name, args, variant, decl) => Shape(PLAIN, name, NormalAll(args), variant, decl)
    case Callable(_, form, params, ret, mode) => Callable(PLAIN, form, params, Normal(ret), mode)
  }

  function NormalAll(ts: seq<Ty>): seq<Ty>
    decreases ts, 0
  {
    if ts == [] then [] else [Normal(ts[0])] + NormalAll(ts[1..])
  }

  /** Where two types are compared, nothing is unresolved and no raw pointer points to void; a target has
      no dynamic names there either. */
  predicate Definite(t: Ty, target: bool)
    decreases t, 1
  {
    match t
    case Atom(_, leaf) => !leaf.Unresolved?
    case Wrap(_, wrapper, inner) =>
      wrapper.Miss? || wrapper.Place? || (Definite(inner, target) && !(wrapper.Raw? && IsVoid(inner)))
    case Array(_, elem, _, _) => Definite(elem, target)
    case Shape(_, name, args, _, _) => (target ==> !IsDynName(name)) && DefiniteAll(args, target)
    case Callable(_, _, params, ret, _) => Definite(ret, target)
  }

  predicate DefiniteAll(ts: seq<Ty>, target: bool)
    decreases ts, 0
  {
    ts != [] ==> Definite(ts[0], target) && DefiniteAll(ts[1..], target)
  }

  /** Assignable types are semantically equal once normalised. */
  lemma {:induction false} AssignableAlike(s: Ty, t: Ty)
    requires Compatible(s, t) && Definite(s, false) && Definite(t, true)
    ensures Id.Equals(Normal(s), Normal(t))
    decreases s, 1
  {
    match s
    case Atom(_, _) =>
    case Wrap(_, wrapper, inner) =>
      if wrapper.Shared? {
        AssignableAlike(inner, if t.Wrap? && t.wrapper.Shared? then t.inner else t);
      } else if !wrapper.Miss? && !wrapper.Place? {
        AssignableAlike(inner, t.inner);
      }
    case Array(_, elem, _, _) => AssignableAlike(elem, t.elem);
    case Shape(_, _, args, _, _) => AllAlike(args, t.args);
    case Callable(_, _, _, ret, _) => AssignableAlike(ret, t.ret);
  }

  lemma {:induction false} AllAlike(ss: seq<Ty>, ts: seq<Ty>)
    requires CompatibleAll(ss, ts) && DefiniteAll(ss, false) && DefiniteAll(ts, true)
    ensures Id.EqualsAll(NormalAll(ss), NormalAll(ts))
    decreases ss, 0
  {
    if ss != [] {
      AssignableAlike(ss[0], ts[0]);
      AllAlike(ss[1..], ts[1..]);
      assert NormalAll(ss)[1..] == NormalAll(ss[1..]) && NormalAll(ts)[1..] == NormalAll(ts[1..]);
    }
  }

  /** And they have the same identity. */
  lemma AssignableIdentity(s: Ty, t: Ty, explicit: bool)
    requires Compatible(s, t) && Definite(s, false) && Definite(t, true)
    requires Id.Resolved(Normal(s), explicit) && Id.Resolved(Normal(t), explicit)
    ensures Id.CanonicalIdentity(Normal(s)) == Id.CanonicalIdentity(Normal(t))
  {
    AssignableAlike(s, t);
    Id.IdentityIffEquals(Normal(s), Normal(t), explicit);
  }

  // ---------------------------------------------------------------- what is assignable

  /** Equal types are assignable. */
  lemma {:induction false} EqualAssignable(s: Ty, t: Ty)
    requires Id.Equals(s, t) && WellFormed(s)
    ensures Compatible(s, t)
    decreases s, 1
  {
    match s
    case Atom(_, _) =>
    case Wrap(_, _, inner) => EqualAssignable(inner, t.inner);
    case Array(_, elem, _, _) => EqualAssignable(elem, t.elem);
    case Shape(_, _, args, _, _) => AllAssignable(args, t.args);
    case Callable(_, _, _, ret, _) => EqualAssignable(ret, t.ret);
  }

  lemma {:induction false} AllAssignable(ss: seq<Ty>, ts: seq<Ty>)
    requires Id.EqualsAll(ss, ts) && WellFormedAll(ss)
    ensures CompatibleAll(ss, ts)
    decreases ss, 0
  {
    if ss != [] {
      EqualAssignable(ss[0], ts[0]);
      AllAssignable(ss[1..], ts[1..]);
    }
  }

  /** The type without write, block and cede marks. */
  function ReadOnly(t: Ty): Ty
    decreases t, 1
  {
    var a := Attr(false, t.a.n, false, false);
    match t
    case Atom(_, leaf) => Atom(a, leaf)
    case Wrap(_, wrapper, inner) => Wrap(a, wrapper, ReadOnly(inner))
    case Array(_, elem, size, extent) => Array(a, ReadOnly(elem), size, extent)
    case Shape(_, name, args, variant, decl) => Shape(a, name, ReadOnlyAll(args), variant, decl)
    case Callable(_, form, params, ret, mode) => Callable(a, form, params, ReadOnly(ret), mode)
  }

  function ReadOnlyAll(ts: seq<Ty>): seq<Ty>
    decreases ts, 0
  {
    if ts == [] then [] else [ReadOnly(ts[0])] + ReadOnlyAll(ts[1..])
  }

  /** Permission can always be given up. */
  lemma {:induction false} ReadOnlyAssignable(t: Ty)
    requires WellFormed(t)
    ensures Compatible(t, ReadOnly(t))
    decreases t, 1
  {
    match t
    case Atom(_, _) =>
    case Wrap(_, _, inner) => ReadOnlyAssignable(inner);
    case Array(_, elem, _, _) => ReadOnlyAssignable(elem);
    case Shape(_, _, args, _, _) => AllReadOnlyAssignable(args);
    case Callable(_, _, params, ret, _) =>
      EqualsSelfAllIff(params);
      ReadOnlyAssignable(ret);
  }

  lemma {:induction false} AllReadOnlyAssignable(ts: seq<Ty>)
    requires WellFormedAll(ts)
    ensures CompatibleAll(ts, ReadOnlyAll(ts))
    decreases ts, 0
  {
    if ts != [] {
      ReadOnlyAssignable(ts[0]);
      AllReadOnlyAssignable(ts[1..]);
      assert ReadOnlyAll(ts)[1..] == ReadOnlyAll(ts[1..]);
    }
  }

  /** A shared handle can be read through. */
  lemma SharedRead(a: Attr, s: Ty, t: Ty)
    requires Compatible(s, t) && !IsPointer(t)
    ensures Compatible(Wrap(a, Shared, s), t)
  {
  }
}
