/** Structural equality of types and the exact identity text that semantic caches use for it. */
module Identity {
  import opened Text
  import opened Types

  /** The tags a part of an identity can carry. */
  datatype Tag =
    | TKind | TAttributes | TPrimitive | TUnresolved | TInner
    | TPayload | TPlaceItem | TPointee | TElement | TExtent
    | TBound | TUnbound | TArgument | TVariant | TReceiver
    | TVariadic | TParameter | TResult | TTemplate | TName

  function TagText(tag: Tag): string {
    match tag
    case TKind => "kind"
    case TAttributes => "attributes"
    case TPrimitive => "primitive"
    case TUnresolved => "unresolved"
    case TInner => "inner"
    case TPayload => "payload"
    case TPlaceItem => "place-item"
    case TPointee => "pointee"
    case TElement => "element"
    case TExtent => "extent"
    case TBound => "bound"
    case TUnbound => "unbound"
    case TArgument => "argument"
    case TVariant => "variant"
    case TReceiver => "receiver"
    case TVariadic => "variadic"
    case TParameter => "parameter"
    case TResult => "result"
    case TTemplate => "template"
    case TName => "name"
  }

  lemma TagTextPlain(tag: Tag)
    ensures TagText(tag) != "" && NoDigits(TagText(tag))
  {
  }

  function Part(tag: Tag, value: string): string {
    Framed(TagText(tag), value)
  }

  function Parts(tag: Tag, values: seq<string>, rest: string): string {
    FramedAll(TagText(tag), values, rest)
  }

  /** One tagged part determines its value and the rest. */
  lemma PartUnique(tag: Tag, v1: string, rest1: string, v2: string, rest2: string)
    requires Part(tag, v1) + rest1 == Part(tag, v2) + rest2
    ensures v1 == v2 && rest1 == rest2
  {
    TagTextPlain(tag);
    FramedUnique(TagText(tag), v1, rest1, TagText(tag), v2, rest2);
  }

  lemma PartsUnique(tag: Tag, values1: seq<string>, values2: seq<string>, endTag: Tag, last1: string, last2: string)
    requires TagText(tag) != TagText(endTag)
    requires Parts(tag, values1, Part(endTag, last1) + "}") == Parts(tag, values2, Part(endTag, last2) + "}")
    ensures values1 == values2 && last1 == last2
  {
    TagTextPlain(tag);
    TagTextPlain(endTag);
    FramedAllUnique(TagText(tag), values1, values2, TagText(endTag), last1, last2, "}", "}");
  }

  function Bit(b: bool): string {
    if b then "1" else "0"
  }

  function AttrBits(a: Attr): string {
    Bit(a.w) + Bit(a.n) + Bit(a.b) + Bit(a.c)
  }

  function ReceiverCode(m: Receiver): (k: nat)
    ensures k < 10
  {
    match m case SharedCall => 0 case MutableCall => 1 case ConsumingCall => 2
  }

  /** The generic arguments an identity prints: an instance without explicit arguments lends its own. */
  function PrintedArgs(args: seq<Ty>, decl: Decl): seq<Ty> {
    if args == [] && decl.Decl? && decl.template.Decl? then decl.targs else args
  }

  function Extent(size: nat, extent: string): string {
    if extent == "" then Decimal(size) else extent
  }

  /** The tag over the only part of a wrapper node. */
  function WrapperTag(w: Wrapper): Tag {
    match w
    case Slice => TElement
    case Miss => TPayload
    case Uninit => TInner
    case Place => TPlaceItem
    case _ => TPointee
  }

  function CanonicalIdentity(t: Ty): string
    decreases t, 2
  {
    "type{" + (Part(TKind, Decimal(Kind(t))) + (Part(TAttributes, AttrBits(t.a)) + Fields(t)))
  }

  /** Everything after the kind and the attributes, closing brace included. */
  function Fields(t: Ty): string
    decreases t, 1
  {
    match t
    case Atom(_, leaf) => LeafFields(leaf) + "}"
    case Wrap(_, wrapper, inner) => Part(WrapperTag(wrapper), CanonicalIdentity(inner)) + "}"
    case Array(_, elem, size, extent) =>
      Part(TElement, CanonicalIdentity(elem)) + (Part(TExtent, Extent(size, extent)) + "}")
    case Shape(_, name, args, variant, decl) =>
      (if decl.Decl? then Part(TBound, DeclIdentity(decl)) else Part(TUnbound, name)) +
      Parts(TArgument, if args == [] && decl.Decl? && decl.template.Decl? then Identities(decl.targs)
                       else Identities(args), Part(TVariant, variant) + "}")
    case Callable(_, form, params, ret, mode) =>
      Part(TReceiver, Decimal(ReceiverCode(mode))) + (FormPart(form) +
      Parts(TParameter, Identities(params), Part(TResult, CanonicalIdentity(ret)) + "}"))
  }

  function LeafFields(leaf: Leaf): string {
    match leaf
    case Primitive(name) => Part(TPrimitive, name)
    case Unresolved(name) => Part(TUnresolved, name)
    case _ => ""
  }

  /** Only a function type says whether it is variadic. */
  function FormPart(form: CallForm): string {
    if form.PlainFn? then Part(TVariadic, Bit(form.variadic)) else ""
  }

  function Identities(ts: seq<Ty>): (ids: seq<string>)
    ensures |ids| == |ts|
    decreases ts, 0
  {
    if ts == [] then [] else [CanonicalIdentity(ts[0])] + Identities(ts[1..])
  }

  function DeclIdentity(d: Decl): string
    requires d.Decl?
    decreases d, 2
  {
    if d.nominal.Some? then "nominal:" + d.nominal.value
    else if d.template.Decl? then
      "instance{" + (Part(TTemplate, DeclIdentity(d.template)) + Parts(TArgument, Identities(d.targs), "}"))
    else "synthetic:" + Part(TName, SyntheticName(d))
  }

  /** Semantic equality: same kind and attributes, then the parts. An unresolved type equals nothing. */
  predicate Equals(s: Ty, t: Ty)
    decreases s, 1
  {
    Kind(s) == Kind(t) && s.a == t.a &&
    match s
    case Atom(_, leaf) => !leaf.Unresolved? && leaf == t.leaf
    case Wrap(_, _, inner) => Equals(inner, t.inner)
    case Array(_, elem, size, extent) => size == t.size && extent == t.extent && Equals(elem, t.elem)
    case Shape(_, name, args, variant, decl) =>
      SameFamily(name, decl, t.name, t.decl) && variant == t.variant && EqualsAll(args, t.args)
    case Callable(_, form, params, ret, mode) =>
      mode == t.mode && form == t.form && EqualsAll(params, t.params) && Equals(ret, t.ret)
  }

  predicate EqualsAll(ss: seq<Ty>, ts: seq<Ty>)
    decreases ss, 0
  {
    |ss| == |ts| && (ss != [] ==> Equals(ss[0], ts[0]) && EqualsAll(ss[1..], ts[1..]))
  }

  /** Bound shapes are compared by declaration identity, unbound ones by name. */
  predicate SameFamily(name1: string, decl1: Decl, name2: string, decl2: Decl) {
    decl1.Decl? == decl2.Decl? && if decl1.Decl? then DeclIdentity(decl1) == DeclIdentity(decl2) else name1 == name2
  }

  /** Resolved throughout, with unambiguous array lengths, and with every bound instance written in
      one convention: its generic arguments are always spelled out, or never. */
  predicate Resolved(t: Ty, explicit: bool)
    decreases t, 1
  {
    match t
    case Atom(_, leaf) => !leaf.Unresolved?
    case Wrap(_, _, inner) => Resolved(inner, explicit)
    case Array(_, elem, size, extent) => ExtentOk(size, extent) && Resolved(elem, explicit)
    case Shape(_, _, args, _, decl) => ConventionOk(args, decl, explicit) && ResolvedAll(args, explicit)
    case Callable(_, _, params, ret, _) => ResolvedAll(params, explicit) && Resolved(ret, explicit)
  }

  predicate ResolvedAll(ts: seq<Ty>, explicit: bool)
    decreases ts, 0
  {
    ts != [] ==> Resolved(ts[0], explicit) && ResolvedAll(ts[1..], explicit)
  }

  predicate ConventionOk(args: seq<Ty>, decl: Decl, explicit: bool) {
    decl.Decl? && decl.template.Decl? ==>
      decl.nominal.None? && if explicit then args != [] || decl.targs == [] else args == []
  }

  lemma BitsInjective(s: Attr, t: Attr)
    requires AttrBits(s) == AttrBits(t)
    ensures s == t
  {
    assert AttrBits(s)[0] == Bit(s.w)[0] && AttrBits(s)[1] == Bit(s.n)[0];
    assert AttrBits(s)[2] == Bit(s.b)[0] && AttrBits(s)[3] == Bit(s.c)[0];
    assert AttrBits(t)[0] == Bit(t.w)[0] && AttrBits(t)[1] == Bit(t.n)[0];
    assert AttrBits(t)[2] == Bit(t.b)[0] && AttrBits(t)[3] == Bit(t.c)[0];
  }

  /** Equal identities agree on the kind and the attributes, and their fields are equal texts. */
  lemma HeaderUnique(s: Ty, t: Ty)
    ensures CanonicalIdentity(s) == CanonicalIdentity(t) <==> Kind(s) == Kind(t) && s.a == t.a && Fields(s) == Fields(t)
  {
    if CanonicalIdentity(s) == CanonicalIdentity(t) {
      HeaderDecodes(s, t);
    }
  }

  lemma HeaderDecodes(s: Ty, t: Ty)
    requires CanonicalIdentity(s) == CanonicalIdentity(t)
    ensures Kind(s) == Kind(t) && s.a == t.a && Fields(s) == Fields(t)
  {
    var rest1 := Part(TAttributes, AttrBits(s.a)) + Fields(s);
    var rest2 := Part(TAttributes, AttrBits(t.a)) + Fields(t);
    SplitSameLength("type{", Part(TKind, Decimal(Kind(s))) + rest1,
                    "type{", Part(TKind, Decimal(Kind(t))) + rest2);
    PartUnique(TKind, Decimal(Kind(s)), rest1, Decimal(Kind(t)), rest2);
    DecimalInjective(Kind(s), Kind(t));
    PartUnique(TAttributes, AttrBits(s.a), Fields(s), AttrBits(t.a), Fields(t));
    BitsInjective(s.a, t.a);
  }

  /** A run of arguments closed by a brace can be split in one way only. */
  lemma {:induction false} ClosedRunUnique(tag: string, values1: seq<string>, values2: seq<string>)
    requires tag != "" && NoDigits(tag)
    requires FramedAll(tag, values1, "}") == FramedAll(tag, values2, "}")
    ensures values1 == values2
  {
    if values1 != [] && values2 != [] {
      FramedUnique(tag, values1[0], FramedAll(tag, values1[1..], "}"),
                   tag, values2[0], FramedAll(tag, values2[1..], "}"));
      ClosedRunUnique(tag, values1[1..], values2[1..]);
      assert values1 == [values1[0]] + values1[1..] && values2 == [values2[0]] + values2[1..];
    }
  }

  /** Declarations with one identity are instances together, of equal argument lists. */
  lemma InstanceIdentity(d: Decl, e: Decl)
    requires d.Decl? && e.Decl? && DeclIdentity(d) == DeclIdentity(e)
    requires d.nominal.None? && d.template.Decl?
    ensures e.nominal.None? && e.template.Decl? && Identities(d.targs) == Identities(e.targs)
    ensures DeclIdentity(d.template) == DeclIdentity(e.template)
  {
    assert DeclIdentity(d)[0] == 'i';
    var rest1 := Parts(TArgument, Identities(d.targs), "}");
    var rest2 := Parts(TArgument, Identities(e.targs), "}");
    SplitSameLength("instance{", Part(TTemplate, DeclIdentity(d.template)) + rest1,
                    "instance{", Part(TTemplate, DeclIdentity(e.template)) + rest2);
    PartUnique(TTemplate, DeclIdentity(d.template), rest1, DeclIdentity(e.template), rest2);
    ClosedRunUnique(TagText(TArgument), Identities(d.targs), Identities(e.targs));
  }

  function SyntheticName(d: Decl): string
    requires d.Decl?
  {
    if d.codegenName == "" then d.name else d.codegenName
  }

  /** Two declarations have one identity exactly when they have one nominal id; or none, and are instances
      of one template with one list of arguments; or are of neither kind and have one name. */
  lemma DeclIdentityIff(d: Decl, e: Decl)
    requires d.Decl? && e.Decl?
    ensures DeclIdentity(d) == DeclIdentity(e) <==>
      && d.nominal == e.nominal
      && (d.nominal.None? ==>
            && d.template.Decl? == e.template.Decl?
            && if d.template.Decl? then
                 DeclIdentity(d.template) == DeclIdentity(e.template) && Identities(d.targs) == Identities(e.targs)
               else SyntheticName(d) == SyntheticName(e))
  {
    if DeclIdentity(d) == DeclIdentity(e) {
      var c := DeclIdentity(d)[0];
      assert c == if d.nominal.Some? then 'n' else if d.template.Decl? then 'i' else 's';
      assert c == if e.nominal.Some? then 'n' else if e.template.Decl? then 'i' else 's';
      if d.nominal.Some? {
        SplitSameLength("nominal:", d.nominal.value, "nominal:", e.nominal.value);
      } else if d.template.Decl? {
        InstanceIdentity(d, e);
      } else {
        var v, w := SyntheticName(d), SyntheticName(e);
        SplitSameLength("synthetic:", Part(TName, v), "synthetic:", Part(TName, w));
        assert Part(TName, v) + "" == Part(TName, v) && Part(TName, w) + "" == Part(TName, w);
        PartUnique(TName, v, "", w, "");
      }
    }
  }

  /** Two bound or unbound shape heads print alike exactly when they are of one family. */
  lemma ShapeFieldsUnique(s: Ty, t: Ty, explicit: bool)
    requires s.Shape? && t.Shape? && Fields(s) == Fields(t)
    requires ConventionOk(s.args, s.decl, explicit) && ConventionOk(t.args, t.decl, explicit)
    ensures SameFamily(s.name, s.decl, t.name, t.decl) && s.variant == t.variant
    ensures Identities(s.args) == Identities(t.args)
  {
    var ids1, ids2 := Identities(PrintedArgs(s.args, s.decl)), Identities(PrintedArgs(t.args, t.decl));
    var tag1, head1 := TUnbound, s.name;
    if s.decl.Decl? {
      tag1, head1 := TBound, DeclIdentity(s.decl);
    }
    var tag2, head2 := TUnbound, t.name;
    if t.decl.Decl? {
      tag2, head2 := TBound, DeclIdentity(t.decl);
    }
    TagTextPlain(tag1);
    TagTextPlain(tag2);
    FramedUnique(TagText(tag1), head1, Parts(TArgument, ids1, Part(TVariant, s.variant) + "}"),
                 TagText(tag2), head2, Parts(TArgument, ids2, Part(TVariant, t.variant) + "}"));
    PartsUnique(TArgument, ids1, ids2, TVariant, s.variant, t.variant);
    if s.decl.Decl? && s.decl.template.Decl? {
      InstanceIdentity(s.decl, t.decl);
    } else if s.decl.Decl? && t.decl.template.Decl? {
      InstanceIdentity(t.decl, s.decl);
    }
  }

  lemma CallableFieldsUnique(s: Ty, t: Ty)
    requires s.Callable? && t.Callable? && s.form.PlainFn? == t.form.PlainFn? && Fields(s) == Fields(t)
    ensures s.mode == t.mode && s.form == t.form
    ensures Identities(s.params) == Identities(t.params) && CanonicalIdentity(s.ret) == CanonicalIdentity(t.ret)
  {
    var ids1, ids2 := Identities(s.params), Identities(t.params);
    var res1, res2 := CanonicalIdentity(s.ret), CanonicalIdentity(t.ret);
    var rest1 := Parts(TParameter, ids1, Part(TResult, res1) + "}");
    var rest2 := Parts(TParameter, ids2, Part(TResult, res2) + "}");
    PartUnique(TReceiver, Decimal(ReceiverCode(s.mode)), FormPart(s.form) + rest1,
               Decimal(ReceiverCode(t.mode)), FormPart(t.form) + rest2);
    DecimalInjective(ReceiverCode(s.mode), ReceiverCode(t.mode));
    if s.form.PlainFn? {
      PartUnique(TVariadic, Bit(s.form.variadic), rest1, Bit(t.form.variadic), rest2);
    } else {
      assert "" + rest1 == rest1 && "" + rest2 == rest2;
    }
    PartsUnique(TParameter, ids1, ids2, TResult, res1, res2);
  }

  lemma ArrayFieldsUnique(s: Ty, t: Ty)
    requires s.Array? && t.Array? && Fields(s) == Fields(t)
    requires ExtentOk(s.size, s.extent) && ExtentOk(t.size, t.extent)
    ensures s.size == t.size && s.extent == t.extent && CanonicalIdentity(s.elem) == CanonicalIdentity(t.elem)
  {
    PartUnique(TElement, CanonicalIdentity(s.elem), Part(TExtent, Extent(s.size, s.extent)) + "}",
               CanonicalIdentity(t.elem), Part(TExtent, Extent(t.size, t.extent)) + "}");
    PartUnique(TExtent, Extent(s.size, s.extent), "}", Extent(t.size, t.extent), "}");
    DecimalRoundTrip(s.size);
    DecimalRoundTrip(t.size);
  }

  /** The identity text decides semantic equality, in both directions. */
  lemma {:induction false} IdentityIffEquals(s: Ty, t: Ty, explicit: bool)
    requires Resolved(s, explicit) && Resolved(t, explicit)
    ensures CanonicalIdentity(s) == CanonicalIdentity(t) <==> Equals(s, t)
    decreases s, 1
  {
    if Kind(s) != Kind(t) || s.a != t.a {
      HeaderUnique(s, t);
    } else {
      match s {
        case Atom(_, _) => LeafCase(s, t);
        case Wrap(_, _, _) => WrapCase(s, t, explicit);
        case Array(_, _, _, _) => ArrayCase(s, t, explicit);
        case Shape(_, _, _, _, _) => ShapeCase(s, t, explicit);
        case Callable(_, _, _, _, _) => CallableCase(s, t, explicit);
      }
    }
  }

  lemma LeafCase(s: Ty, t: Ty)
    requires Kind(s) == Kind(t) && s.a == t.a && s.Atom? && !s.leaf.Unresolved?
    ensures CanonicalIdentity(s) == CanonicalIdentity(t) <==> Equals(s, t)
  {
    HeaderUnique(s, t);
    if s.leaf.Primitive? && Fields(s) == Fields(t) {
      PartUnique(TPrimitive, s.leaf.name, "}", t.leaf.name, "}");
    }
  }

  lemma {:induction false} WrapCase(s: Ty, t: Ty, explicit: bool)
    requires s.Wrap? && t.Wrap? && s.wrapper == t.wrapper && s.a == t.a
    requires Resolved(s, explicit) && Resolved(t, explicit)
    ensures CanonicalIdentity(s) == CanonicalIdentity(t) <==> Equals(s, t)
    decreases s, 0
  {
    HeaderUnique(s, t);
    IdentityIffEquals(s.inner, t.inner, explicit);
    if Fields(s) == Fields(t) {
      PartUnique(WrapperTag(s.wrapper), CanonicalIdentity(s.inner), "}", CanonicalIdentity(t.inner), "}");
    }
  }

  lemma {:induction false} ArrayCase(s: Ty, t: Ty, explicit: bool)
    requires s.Array? && t.Array? && s.a == t.a
    requires Resolved(s, explicit) && Resolved(t, explicit)
    ensures CanonicalIdentity(s) == CanonicalIdentity(t) <==> Equals(s, t)
    decreases s, 0
  {
    HeaderUnique(s, t);
    IdentityIffEquals(s.elem, t.elem, explicit);
    if Fields(s) == Fields(t) {
      ArrayFieldsUnique(s, t);
    }
  }

  lemma {:induction false} ShapeCase(s: Ty, t: Ty, explicit: bool)
    requires s.Shape? && t.Shape? && s.a == t.a
    requires Resolved(s, explicit) && Resolved(t, explicit)
    ensures CanonicalIdentity(s) == CanonicalIdentity(t) <==> Equals(s, t)
    decreases s, 0
  {
    HeaderUnique(s, t);
    IdentitiesIffEquals(s.args, t.args, explicit);
    if Fields(s) == Fields(t) {
      ShapeFieldsUnique(s, t, explicit);
    } else if Equals(s, t) && s.decl.Decl? {
      if s.decl.template.Decl? {
        InstanceIdentity(s.decl, t.decl);
      } else if t.decl.template.Decl? {
        InstanceIdentity(t.decl, s.decl);
      }
    }
  }

  lemma {:induction false} CallableCase(s: Ty, t: Ty, explicit: bool)
    requires s.Callable? && t.Callable? && s.form.PlainFn? == t.form.PlainFn? && s.a == t.a
    requires Resolved(s, explicit) && Resolved(t, explicit)
    ensures CanonicalIdentity(s) == CanonicalIdentity(t) <==> Equals(s, t)
    decreases s, 0
  {
    HeaderUnique(s, t);
    IdentitiesIffEquals(s.params, t.params, explicit);
    IdentityIffEquals(s.ret, t.ret, explicit);
    if Fields(s) == Fields(t) {
      CallableFieldsUnique(s, t);
    }
  }

  lemma {:induction false} IdentitiesIffEquals(ss: seq<Ty>, ts: seq<Ty>, explicit: bool)
    requires ResolvedAll(ss, explicit) && ResolvedAll(ts, explicit)
    ensures Identities(ss) == Identities(ts) <==> EqualsAll(ss, ts)
    decreases ss, 0
  {
    if |ss| == |ts| && ss != [] {
      IdentityIffEquals(ss[0], ts[0], explicit);
      IdentitiesIffEquals(ss[1..], ts[1..], explicit);
      assert Identities(ss)[0] == CanonicalIdentity(ss[0]) && Identities(ss)[1..] == Identities(ss[1..]);
      assert Identities(ts)[0] == CanonicalIdentity(ts[0]) && Identities(ts)[1..] == Identities(ts[1..]);
    }
  }

  /** The symbol-safe form of an identity. */
  method CanonicalMangledName(t: Ty) returns (name: string)
    requires IsBytes(CanonicalIdentity(t))
    ensures name == "T" + Hex(CanonicalIdentity(t))
  {
    name := HexName('T', CanonicalIdentity(t));
  }

  /** Two types share a canonical symbol exactly when they are semantically equal. */
  lemma CanonicalSymbolIffEquals(s: Ty, t: Ty, explicit: bool)
    requires Resolved(s, explicit) && Resolved(t, explicit)
    requires IsBytes(CanonicalIdentity(s)) && IsBytes(CanonicalIdentity(t))
    ensures "T" + Hex(CanonicalIdentity(s)) == "T" + Hex(CanonicalIdentity(t)) <==> Equals(s, t)
  {
    IdentityIffEquals(s, t, explicit);
    if "T" + Hex(CanonicalIdentity(s)) == "T" + Hex(CanonicalIdentity(t)) {
      SplitSameLength("T", Hex(CanonicalIdentity(s)), "T", Hex(CanonicalIdentity(t)));
      HexInjective(CanonicalIdentity(s), CanonicalIdentity(t));
    }
  }
}
