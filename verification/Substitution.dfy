/** Replacing generic parameters by types, and symbolic array lengths by numbers or other symbols. */
module Substitution {
  import opened Text
  import opened Types
  import opened TypeString

  type Bindings = map<string, Ty>

  /** A clone under the node's own marks. */
  function Renew(t: Ty): Ty {
    WithAttributes(t, t.a.w, t.a.n, t.a.b)
  }

  /** The replacement of a name keeps its own marks and adds those of the place it stands in. */
  function Merge(r: Ty, a: Attr, variant: string): Ty {
    var marked := WithAttributes(r, r.a.w || a.w, r.a.n || a.n, r.a.b || a.b);
    var ceded := SetAttr(marked, marked.a.(c := marked.a.c || a.c));
    if ceded.Shape? then ceded.(variant := ceded.variant + variant) else ceded
  }

  datatype Length = Length(size: nat, extent: string)

  /** A length after its symbol was looked up: a number when the replacement prints as one. */
  function Resolve(l: Length, m: Bindings): Length {
    if l.extent == "" || l.extent !in m then l
    else if FitsUInt64(ToString(m[l.extent])) then Length(DecimalValue(ToString(m[l.extent])), "")
    else Length(l.size, ToString(m[l.extent]))
  }

  function Substitute(t: Ty, m: Bindings): Ty
    decreases t, 1
  {
    match t
    case Atom(_, _) => t
    case Wrap(a, wrapper, inner) => Wrap(Renew(t).a, wrapper, Substitute(inner, m))
    case Array(a, elem, size, extent) =>
      var length := Resolve(Length(size, extent), m);
      Array(Renew(t).a, Substitute(elem, m), length.size, length.extent)
    case Shape(a, name, args, variant, decl) =>
      if decl.NoDecl? && name in m then Merge(m[name], a, variant)
      else Shape(Renew(t).a, Renew(t).name, SubstituteAll(args, m), variant, decl)
    case Callable(a, form, params, ret, mode) =>
      Callable(Renew(t).a, form, SubstituteAll(params, m), Substitute(ret, m), mode)
  }

  function SubstituteAll(ts: seq<Ty>, m: Bindings): (rs: seq<Ty>)
    ensures |rs| == |ts|
    decreases ts, 0
  {
    if ts == [] then [] else [Substitute(ts[0], m)] + SubstituteAll(ts[1..], m)
  }

  lemma {:induction false} SubstituteAllAt(ts: seq<Ty>, m: Bindings, i: nat)
    requires i < |ts|
    ensures SubstituteAll(ts, m)[i] == Substitute(ts[i], m)
  {
    if i > 0 {
      SubstituteAllAt(ts[1..], m, i - 1);
    }
  }

  /** The loop over the parts of a node. */
  method SubstituteParts(ts: seq<Ty>, m: Bindings) returns (rs: seq<Ty>)
    ensures rs == SubstituteAll(ts, m)
  {
    rs := ts;
    for i := 0 to |rs|
      invariant |rs| == |ts|
      invariant forall j | 0 <= j < i :: rs[j] == SubstituteAll(ts, m)[j]
      invariant forall j | i <= j < |ts| :: rs[j] == ts[j]
    {
      SubstituteAllAt(ts, m, i);
      rs := rs[i := Substitute(rs[i], m)];
    }
    assert rs == SubstituteAll(ts, m);
  }

  // ---------------------------------------------------------------- maps that do not apply

  /** The names a map can act on: unbound shapes and symbolic lengths. */
  predicate Untouched(t: Ty, m: Bindings)
    decreases t, 1
  {
    match t
    case Atom(_, _) => true
    case Wrap(_, _, inner) => Untouched(inner, m)
    case Array(_, elem, _, extent) => (extent != "" ==> extent !in m) && Untouched(elem, m)
    case Shape(_, name, args, _, decl) => (decl.NoDecl? ==> name !in m) && UntouchedAll(args, m)
    case Callable(_, _, params, ret, _) => UntouchedAll(params, m) && Untouched(ret, m)
  }

  predicate UntouchedAll(ts: seq<Ty>, m: Bindings)
    decreases ts, 0
  {
    ts != [] ==> Untouched(ts[0], m) && UntouchedAll(ts[1..], m)
  }

  /** Every node is one that a clone under its own marks leaves alone. */
  predicate SettledThroughout(t: Ty)
    decreases t, 1
  {
    (t.Atom? || Settled(t)) &&
    match t
    case Atom(_, _) => true
    case Wrap(_, _, inner) => SettledThroughout(inner)
    case Array(_, elem, _, _) => SettledThroughout(elem)
    case Shape(_, _, args, _, _) => SettledAll(args)
    case Callable(_, _, params, ret, _) => SettledAll(params) && SettledThroughout(ret)
  }

  predicate SettledAll(ts: seq<Ty>)
    decreases ts, 0
  {
    ts != [] ==> SettledThroughout(ts[0]) && SettledAll(ts[1..])
  }

  /** A map that names nothing in a type leaves it alone exactly when the type is settled throughout. */
  lemma {:induction false} DisjointIsIdentityIff(t: Ty, m: Bindings)
    requires Untouched(t, m)
    ensures Substitute(t, m) == t <==> SettledThroughout(t)
    decreases t, 1
  {
    match t
    case Atom(_, _) =>
    case Wrap(_, _, inner) => DisjointIsIdentityIff(inner, m);
    case Array(_, elem, _, _) => DisjointIsIdentityIff(elem, m);
    case Shape(_, _, args, _, _) => DisjointAll(args, m);
    case Callable(_, _, params, ret, _) =>
      DisjointAll(params, m);
      DisjointIsIdentityIff(ret, m);
  }

  lemma {:induction false} DisjointAll(ts: seq<Ty>, m: Bindings)
    requires UntouchedAll(ts, m)
    ensures SubstituteAll(ts, m) == ts <==> SettledAll(ts)
    decreases ts, 0
  {
    if ts != [] {
      DisjointIsIdentityIff(ts[0], m);
      DisjointAll(ts[1..], m);
      assert ts == [ts[0]] + ts[1..];
      assert SubstituteAll(ts, m)[0] == Substitute(ts[0], m) && SubstituteAll(ts, m)[1..] == SubstituteAll(ts[1..], m);
    }
  }

  /** No binding brings in a name or a length that is bound itself. */
  predicate Final(m: Bindings) {
    forall k | k in m :: Untouched(m[k], m) && ToString(m[k]) !in m
  }

  /** One substitution replaces every bound name and every bound length: nothing is left to replace. */
  lemma {:induction false} NothingLeft(t: Ty, m: Bindings)
    requires Final(m)
    ensures Untouched(Substitute(t, m), m)
    decreases t, 1
  {
    match t
    case Atom(_, _) =>
    case Wrap(_, _, inner) => NothingLeft(inner, m);
    case Array(_, elem, _, _) => NothingLeft(elem, m);
    case Shape(a, name, args, variant, decl) =>
      if decl.NoDecl? && name in m {
        MergedUntouched(m[name], a, variant, m);
      } else {
        NothingLeftInAll(args, m);
      }
    case Callable(_, _, params, ret, _) =>
      NothingLeftInAll(params, m);
      NothingLeft(ret, m);
  }

  lemma {:induction false} NothingLeftInAll(ts: seq<Ty>, m: Bindings)
    requires Final(m)
    ensures UntouchedAll(SubstituteAll(ts, m), m)
    decreases ts, 0
  {
    if ts != [] {
      NothingLeft(ts[0], m);
      NothingLeftInAll(ts[1..], m);
      assert SubstituteAll(ts, m)[0] == Substitute(ts[0], m) && SubstituteAll(ts, m)[1..] == SubstituteAll(ts[1..], m);
    }
  }

  lemma MergedUntouched(r: Ty, a: Attr, v: string, m: Bindings)
    requires Untouched(r, m)
    ensures Untouched(Merge(r, a, v), m)
  {
  }

  // ---------------------------------------------------------------- attribute union

  /** The marks of two places, one inside the other's name: a block absorbs the write mark. */
  function UnionAttr(a: Attr, b: Attr): Attr {
    Attr((a.w || b.w) && !a.b && !b.b, a.n || b.n, a.b || b.b, a.c || b.c)
  }

  lemma UnionAttrAssociative(a: Attr, b: Attr, c: Attr)
    ensures UnionAttr(UnionAttr(a, b), c) == UnionAttr(a, UnionAttr(b, c))
    ensures UnionAttr(a, b) == UnionAttr(b, a)
  {
  }

  /** The marks a merge gives to a node of a given kind. */
  function MergedMarks(x: Attr, raw: bool, a: Attr): Attr {
    Attr((x.w || a.w) && !x.b && !a.b, (x.n || a.n) && raw, x.b || a.b, x.c || a.c)
  }

  /** The node under new marks, with a longer suffix. */
  function Remade(r: Ty, a: Attr, suffix: string): Ty {
    if r.Shape? then Shape(a, if r.decl.Decl? then r.decl.name else r.name, r.args, r.variant + suffix, r.decl)
    else SetAttr(r, a)
  }

  lemma MergeIsRemade(r: Ty, a: Attr, v: string)
    ensures Merge(r, a, v) == Remade(r, MergedMarks(r.a, IsRaw(r), a), v)
  {
  }

  lemma RemadeTwice(r: Ty, a: Attr, v: string, b: Attr, w: string)
    ensures Remade(Remade(r, a, v), b, w) == Remade(r, b, v + w)
    ensures IsRaw(Remade(r, a, v)) == IsRaw(r) && Remade(r, a, v).a == a
  {
    if r.Shape? {
      assert r.variant + v + w == r.variant + (v + w);
    }
  }

  /** Merging in two steps is merging the union in one: marks accumulate, suffixes are appended. */
  lemma MergeTwice(r: Ty, a: Attr, v: string, b: Attr, w: string)
    ensures Merge(Merge(r, a, v), b, w) == Merge(r, UnionAttr(a, b), v + w)
  {
    MergeIsRemade(r, a, v);
    var once := Remade(r, MergedMarks(r.a, IsRaw(r), a), v);
    MergeIsRemade(once, b, w);
    MergeIsRemade(r, UnionAttr(a, b), v + w);
    RemadeTwice(r, MergedMarks(r.a, IsRaw(r), a), v, MergedMarks(once.a, IsRaw(once), b), w);
  }

  // ---------------------------------------------------------------- composition

  function Compose(s: Bindings, u: Bindings): Bindings {
    map k | k in s.Keys + u.Keys :: if k in s then Substitute(s[k], u) else u[k]
  }

  /** Only raw pointers may be zero, so no shape is. */
  predicate NoZeroShape(t: Ty)
    decreases t, 1
  {
    match t
    case Atom(_, _) => true
    case Wrap(_, _, inner) => NoZeroShape(inner)
    case Array(_, elem, _, _) => NoZeroShape(elem)
    case Shape(a, _, args, _, _) => !a.n && NoZeroShapes(args)
    case Callable(_, _, params, ret, _) => NoZeroShapes(params) && NoZeroShape(ret)
  }

  predicate NoZeroShapes(ts: seq<Ty>)
    decreases ts, 0
  {
    ts != [] ==> NoZeroShape(ts[0]) && NoZeroShapes(ts[1..])
  }

  predicate BareName(t: Ty) {
    t.Shape? && t.a == PLAIN && t.name != "" && t.args == [] && t.variant == "" && t.decl.NoDecl?
  }

  /** A length symbol is mapped to a bare name or numeral, which is mapped on to something settled that
      prints as something. */
  predicate LengthReady(extent: string, s: Bindings, u: Bindings) {
    extent != "" && extent in s ==>
      && BareName(s[extent])
      && (s[extent].name in u ==> Settled(u[s[extent].name]) && ToString(u[s[extent].name]) != "")
  }

  /** A numeral that is mapped on is mapped to the same number. */
  predicate NumeralKept(extent: string, s: Bindings, u: Bindings)
    requires LengthReady(extent, s, u)
  {
    extent != "" && extent in s && FitsUInt64(s[extent].name) && s[extent].name in u ==>
      var onward := ToString(u[s[extent].name]);
      FitsUInt64(onward) && DecimalValue(onward) == DecimalValue(s[extent].name)
  }

  /** A shape that either map replaces as a whole: its arguments are dropped. */
  predicate Replaced(name: string, decl: Decl, s: Bindings, u: Bindings) {
    decl.NoDecl? && (name in s || name in u)
  }

  predicate LengthsReady(t: Ty, s: Bindings, u: Bindings)
    decreases t, 1
  {
    match t
    case Atom(_, _) => true
    case Wrap(_, _, inner) => LengthsReady(inner, s, u)
    case Array(_, elem, _, extent) => LengthReady(extent, s, u) && LengthsReady(elem, s, u)
    case Shape(_, name, args, _, decl) => Replaced(name, decl, s, u) || AllLengthsReady(args, s, u)
    case Callable(_, _, params, ret, _) => AllLengthsReady(params, s, u) && LengthsReady(ret, s, u)
  }

  predicate AllLengthsReady(ts: seq<Ty>, s: Bindings, u: Bindings)
    decreases ts, 0
  {
    ts != [] ==> LengthsReady(ts[0], s, u) && AllLengthsReady(ts[1..], s, u)
  }

  predicate NumeralsKept(t: Ty, s: Bindings, u: Bindings)
    requires LengthsReady(t, s, u)
    decreases t, 1
  {
    match t
    case Atom(_, _) => true
    case Wrap(_, _, inner) => NumeralsKept(inner, s, u)
    case Array(_, elem, _, extent) => NumeralKept(extent, s, u) && NumeralsKept(elem, s, u)
    case Shape(_, name, args, _, decl) => Replaced(name, decl, s, u) || AllNumeralsKept(args, s, u)
    case Callable(_, _, params, ret, _) => AllNumeralsKept(params, s, u) && NumeralsKept(ret, s, u)
  }

  predicate AllNumeralsKept(ts: seq<Ty>, s: Bindings, u: Bindings)
    requires AllLengthsReady(ts, s, u)
    decreases ts, 0
  {
    ts != [] ==> NumeralsKept(ts[0], s, u) && AllNumeralsKept(ts[1..], s, u)
  }

  lemma SettledMerge(t: Ty)
    requires Settled(t)
    ensures Merge(t, PLAIN, "") == t
  {
    if t.Shape? {
      assert t.variant + "" == t.variant;
    }
  }

  lemma BareNamePrints(t: Ty)
    requires BareName(t)
    ensures ToString(t) == t.name
  {
    assert Body(t) == t.name + "" + "" == t.name;
    assert TailMarks(t) == "";
    assert t.name + "" == t.name && "" + t.name == t.name;
  }

  /** A length bound to a numeral becomes that number, and loses its symbol. */
  lemma LengthBound(a: Attr, elem: Ty, size: nat, extent: string, m: Bindings, n: nat)
    requires extent != "" && extent in m && BareName(m[extent]) && m[extent].name == Decimal(n)
    ensures var t := Substitute(Array(a, elem, size, extent), m);
      && t.Array? && t.elem == Substitute(elem, m)
      && (n < LIMIT64 ==> t.size == n && t.extent == "")
      && (n >= LIMIT64 ==> t.size == size && t.extent == Decimal(n))
  {
    BareNamePrints(m[extent]);
    DecimalRoundTrip(n);
  }

  /** A length bound to another name takes that name, and one that is not bound keeps its own. */
  lemma LengthRenamed(a: Attr, elem: Ty, size: nat, extent: string, m: Bindings)
    requires extent != ""
    ensures var t := Substitute(Array(a, elem, size, extent), m);
      && t.Array? && t.elem == Substitute(elem, m)
      && (extent !in m ==> t.size == size && t.extent == extent)
      && (extent in m && BareName(m[extent]) && !FitsUInt64(m[extent].name) ==>
            t.size == size && t.extent == m[extent].name)
  {
    if extent in m && BareName(m[extent]) {
      BareNamePrints(m[extent]);
    }
  }

  /** A bare name becomes its binding, and a marked one its binding under the union of the marks. */
  lemma NameBound(t: Ty, m: Bindings)
    requires t.Shape? && t.decl.NoDecl? && t.name in m && Settled(m[t.name])
    ensures BareName(t) ==> Substitute(t, m) == m[t.name]
    ensures !t.a.n && t.variant == "" ==>
      Substitute(t, m) == SetAttr(m[t.name], UnionAttr(m[t.name].a, t.a))
  {
    var r := m[t.name];
    SettledMerge(r);
    MergeIsRemade(r, t.a, t.variant);
    if r.Shape? && t.variant == "" {
      assert r.variant + "" == r.variant;
    }
  }

  /** One lookup through the composed map gives what two lookups give, exactly when no numeral changes
      its number: in two steps it is read as a number first. */
  lemma LengthComposesIff(l: Length, s: Bindings, u: Bindings)
    requires LengthReady(l.extent, s, u)
    ensures Resolve(Resolve(l, s), u) == Resolve(l, Compose(s, u)) <==> NumeralKept(l.extent, s, u)
  {
    if l.extent != "" && l.extent in s {
      var r := s[l.extent];
      BareNamePrints(r);
      if r.name in u {
        SettledMerge(u[r.name]);
        assert Substitute(r, u) == u[r.name];
      } else {
        assert Substitute(r, u) == r;
      }
    }
  }

  /** Substituting in a replacement that was merged into its place is merging the substituted replacement. */
  lemma MergeSubstitutes(r: Ty, a: Attr, v: string, u: Bindings)
    requires !a.n && (r.Shape? ==> !r.a.n)
    ensures Substitute(Merge(r, a, v), u) == Merge(Substitute(r, u), a, v)
  {
    if r.Shape? && r.decl.NoDecl? && r.name in u {
      NameMerge(r, a, v, u);
    } else if r.Shape? {
      ShapeMerge(r, a, v, u);
    } else {
      NodeMerge(r, a, v, u);
    }
  }

  lemma NameMerge(r: Ty, a: Attr, v: string, u: Bindings)
    requires !a.n && r.Shape? && !r.a.n && r.decl.NoDecl? && r.name in u
    ensures Substitute(Merge(r, a, v), u) == Merge(Substitute(r, u), a, v)
  {
    var merged := Merge(r, a, v);
    MergedAttr(r, a, v);
    assert merged.Shape? && merged.name == r.name && merged.decl.NoDecl? && merged.variant == r.variant + v;
    assert Substitute(merged, u) == Merge(u[r.name], merged.a, r.variant + v);
    MergeTwice(u[r.name], r.a, r.variant, a, v);
    MergeReads(u[r.name], merged.a, UnionAttr(r.a, a), r.variant + v);
  }

  lemma ShapeMerge(r: Ty, a: Attr, v: string, u: Bindings)
    requires !a.n && r.Shape? && !(r.decl.NoDecl? && r.name in u)
    ensures Substitute(Merge(r, a, v), u) == Merge(Substitute(r, u), a, v)
  {
    var m := MergedMarks(r.a, false, a);
    MergeIsRemade(r, a, v);
    MergeIsRemade(Substitute(r, u), a, v);
    var name := if r.decl.Decl? then r.decl.name else r.name;
    assert Merge(r, a, v) == Shape(m, name, r.args, r.variant + v, r.decl);
    assert Substitute(Merge(r, a, v), u) == Shape(m, name, SubstituteAll(r.args, u), r.variant + v, r.decl);
    assert Substitute(r, u) == Shape(Renew(r).a, name, SubstituteAll(r.args, u), r.variant, r.decl);
    assert MergedMarks(Renew(r).a, false, a) == m;
  }

  lemma NodeMerge(r: Ty, a: Attr, v: string, u: Bindings)
    requires !a.n && !r.Shape?
    ensures Substitute(Merge(r, a, v), u) == Merge(Substitute(r, u), a, v)
  {
  }

  lemma MergedAttr(r: Ty, a: Attr, v: string)
    requires r.Shape? && !a.n && !r.a.n
    ensures Merge(r, a, v).a == UnionAttr(r.a, a)
  {
  }

  /** A merge reads the write mark only where there is no block. */
  lemma MergeReads(q: Ty, a: Attr, b: Attr, v: string)
    requires a.n == b.n && a.b == b.b && a.c == b.c && (!a.b ==> a.w == b.w)
    ensures Merge(q, a, v) == Merge(q, b, v)
  {
    MergeIsRemade(q, a, v);
    MergeIsRemade(q, b, v);
    assert MergedMarks(q.a, IsRaw(q), a) == MergedMarks(q.a, IsRaw(q), b);
  }

  /** Applying s and then u is applying the composed map exactly when no numeral changes its number in
      any length that is left. */
  lemma {:induction false} SubstituteComposesIff(t: Ty, s: Bindings, u: Bindings)
    requires NoZeroShape(t) && LengthsReady(t, s, u)
    requires forall k | k in s :: NoZeroShape(s[k])
    ensures Substitute(Substitute(t, s), u) == Substitute(t, Compose(s, u)) <==> NumeralsKept(t, s, u)
    decreases t, 1
  {
    match t
    case Atom(_, _) =>
    case Wrap(_, _, inner) => SubstituteComposesIff(inner, s, u);
    case Array(_, _, _, _) => ArrayComposesIff(t, s, u);
    case Shape(_, _, _, _, _) => ShapeComposesIff(t, s, u);
    case Callable(_, _, params, ret, _) =>
      AllComposeIff(params, s, u);
      SubstituteComposesIff(ret, s, u);
  }

  lemma {:induction false} ArrayComposesIff(t: Ty, s: Bindings, u: Bindings)
    requires t.Array? && NoZeroShape(t) && LengthsReady(t, s, u)
    requires forall k | k in s :: NoZeroShape(s[k])
    ensures Substitute(Substitute(t, s), u) == Substitute(t, Compose(s, u)) <==> NumeralsKept(t, s, u)
    decreases t, 0
  {
    SubstituteComposesIff(t.elem, s, u);
    LengthComposesIff(Length(t.size, t.extent), s, u);
  }

  lemma {:induction false} ShapeComposesIff(t: Ty, s: Bindings, u: Bindings)
    requires t.Shape? && NoZeroShape(t) && LengthsReady(t, s, u)
    requires forall k | k in s :: NoZeroShape(s[k])
    ensures Substitute(Substitute(t, s), u) == Substitute(t, Compose(s, u)) <==> NumeralsKept(t, s, u)
    decreases t, 0
  {
    if t.decl.NoDecl? && t.name in s {
      MergeSubstitutes(s[t.name], t.a, t.variant, u);
    } else if t.decl.NoDecl? && t.name in u {
      MergeReads(u[t.name], Renew(t).a, t.a, t.variant);
    } else {
      AllComposeIff(t.args, s, u);
    }
  }

  lemma {:induction false} AllComposeIff(ts: seq<Ty>, s: Bindings, u: Bindings)
    requires NoZeroShapes(ts) && AllLengthsReady(ts, s, u)
    requires forall k | k in s :: NoZeroShape(s[k])
    ensures SubstituteAll(SubstituteAll(ts, s), u) == SubstituteAll(ts, Compose(s, u)) <==> AllNumeralsKept(ts, s, u)
    decreases ts, 0
  {
    if ts != [] {
      SubstituteComposesIff(ts[0], s, u);
      AllComposeIff(ts[1..], s, u);
      assert SubstituteAll(ts, s)[0] == Substitute(ts[0], s) && SubstituteAll(ts, s)[1..] == SubstituteAll(ts[1..], s);
      var two, one := SubstituteAll(SubstituteAll(ts, s), u), SubstituteAll(ts, Compose(s, u));
      assert two[0] == Substitute(Substitute(ts[0], s), u) && two[1..] == SubstituteAll(SubstituteAll(ts[1..], s), u);
      assert one[0] == Substitute(ts[0], Compose(s, u)) && one[1..] == SubstituteAll(ts[1..], Compose(s, u));
      assert two == one <==> two[0] == one[0] && two[1..] == one[1..] by {
        assert two == [two[0]] + two[1..] && one == [one[0]] + one[1..];
      }
    }
  }

  /** The smallest map that changes one: k is bound to 4, and 4 is a key. */
  lemma NumeralKeyFails()
    ensures var four, n := Shape(PLAIN, "4", [], "", NoDecl), Shape(PLAIN, "n", [], "", NoDecl);
      var s: Bindings, u: Bindings := map["k" := four], map["4" := n];
      Resolve(Resolve(Length(0, "k"), s), u) != Resolve(Length(0, "k"), Compose(s, u))
  {
    var four, n := Shape(PLAIN, "4", [], "", NoDecl), Shape(PLAIN, "n", [], "", NoDecl);
    var s: Bindings, u: Bindings := map["k" := four], map["4" := n];
    BareNamePrints(n);
    assert AllDigits("4") && !IsDigit("n"[0]);
    assert DecimalValue("4") == 10 * DecimalValue("4"[..0]) + 4;
    assert LengthReady("k", s, u);
    LengthComposesIff(Length(0, "k"), s, u);
  }
}
