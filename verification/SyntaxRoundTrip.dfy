/** Reifying a type as syntax and lowering it again: when exactly the type comes back. */
module SyntaxRoundTrip {
  import opened Text
  import opened Types
  import opened TypeString
  import opened TypeSyntax

  // ---------------------------------------------------------------- the condition

  predicate IsDynName(name: string) {
    StartsWith(name, "dyn @")
  }

  /** Names that reach a named node are identifiers, not generated spellings. */
  predicate Reifiable(t: Ty)
    decreases t, 1
  {
    match t
    case Atom(_, leaf) => leaf.Primitive? ==> !IsGeneratedLeaf(leaf.name)
    case Wrap(_, _, inner) => Reifiable(inner)
    case Array(_, elem, size, _) => Reifiable(elem) && size < LIMIT64
    case Shape(_, name, args, _, decl) =>
      (args == [] && decl.NoDecl? && !IsDynName(name) ==> !IsGeneratedLeaf(name)) && ReifiableAll(args)
    case Callable(_, _, params, ret, _) => ReifiableAll(params) && Reifiable(ret)
  }

  predicate ReifiableAll(ts: seq<Ty>)
    decreases ts, 0
  {
    ts != [] ==> Reifiable(ts[0]) && ReifiableAll(ts[1..])
  }

  predicate AttrOk(a: Attr) {
    !a.n && !(a.w && a.b)
  }

  predicate IsKnownWord(name: string) {
    name == "never" || name == "void" || name == "unknown" || IsPrimitiveWord(name)
  }

  /** An argument that the reifier takes for a constant: an unmarked name of digits, or ending in '_'. */
  predicate LooksConstant(t: Ty) {
    !t.a.w && !t.a.b && !t.a.c &&
    if t.Atom? then t.leaf.Primitive? && IsConstText(t.leaf.name)
    else t.Shape? && t.args == [] && !IsDynName(t.name) && IsConstText(t.name)
  }

  /** What a node may look like if reifying and lowering is to return it. */
  predicate Stable(t: Ty)
    decreases t, 2
  {
    match t
    case Atom(a, leaf) => AttrOk(a) && (leaf.Primitive? ==> IsPrimitiveWord(leaf.name))
    case Wrap(a, wrapper, inner) =>
      && Stable(inner)
      && if IsHandle(wrapper) then (a.n ==> wrapper.Raw?) && !(a.c && a.w && a.b) else AttrOk(a)
    case Array(a, elem, size, extent) => AttrOk(a) && ExtentOk(size, extent) && Stable(elem)
    case Shape(a, name, args, variant, decl) =>
      AttrOk(a) &&
      if IsDynName(name) then args == [] && variant == "" && decl.NoDecl?
      else if args == [] then variant == "" && if decl.Decl? then name == decl.name else !IsKnownWord(name)
      else
        && (decl.Decl? ==> name == decl.name || a == PLAIN)
        && !(|args| == 1 && (name == "Uninit" || name == "__PlaceOutcome"))
        && StableArgs(args)
    case Callable(a, _, params, ret, mode) =>
      && AttrOk(a) && (a.c <==> mode.ConsumingCall?) && StableAll(params)
      && if ret.Atom? && ret.leaf.Unit? then ret.a == PLAIN else Stable(ret)
  }

  predicate StableAll(ts: seq<Ty>)
    decreases ts, 1
  {
    ts != [] ==> Stable(ts[0]) && StableAll(ts[1..])
  }

  predicate StableArgs(ts: seq<Ty>)
    decreases ts, 1
  {
    ts != [] ==> StableArg(ts[0]) && StableArgs(ts[1..])
  }

  predicate StableArg(t: Ty)
    decreases t, 3
  {
    if LooksConstant(t) then t.Shape? && t.a == PLAIN && t.variant == "" && t.decl.NoDecl? else Stable(t)
  }

  // ---------------------------------------------------------------- attributes

  /** The marks of `a` put on t one after another, as the reified morphology nodes do. */
  function Remark(t: Ty, a: Attr): Ty {
    var t1 := if a.w then WithAttributes(t, true, t.a.n, t.a.b) else t;
    var t2 := if a.b then WithAttributes(t1, t1.a.w, t1.a.n, true) else t1;
    if a.c then ApplyCede(t2) else t2
  }

  lemma WriteMarkRead(s: Syntax)
    requires !IsPointer(FromSyntax(s))
    ensures var t := FromSyntax(s); FromSyntax(Morphology("#", s, true)) == WithAttributes(t, true, t.a.n, t.a.b)
  {
    var t := FromSyntax(s);
    assert FromSyntax(Morphology("#", s, true)) == LowerMorphology("#", t, true, Canonical(Morphology("#", s, true)));
    assert LowerMorphology("#", t, true, Canonical(Morphology("#", s, true))) == ApplyMark(t, true, true);
  }

  lemma BlockMarkRead(s: Syntax)
    requires !IsPointer(FromSyntax(s))
    ensures var t := FromSyntax(s); FromSyntax(Morphology("$", s, true)) == WithAttributes(t, t.a.w, t.a.n, true)
  {
    var t := FromSyntax(s);
    assert FromSyntax(Morphology("$", s, true)) == LowerMorphology("$", t, true, Canonical(Morphology("$", s, true)));
    assert "$" != "#" && "$"[0] != '?';
    assert LowerMorphology("$", t, true, Canonical(Morphology("$", s, true))) == ApplyMark(t, true, false);
  }

  lemma CedeMarkRead(s: Syntax)
    ensures FromSyntax(Morphology("cede ", s, false)) == ApplyCede(FromSyntax(s))
  {
    var t := FromSyntax(s);
    var spelling := Canonical(Morphology("cede ", s, false));
    assert FromSyntax(Morphology("cede ", s, false)) == LowerMorphology("cede ", t, false, spelling);
    assert "cede "[0] == 'c' && "cede " != "#" && "cede " != "$";
    assert LowerMorphology("cede ", t, false, spelling) == ApplyCede(t);
  }

  lemma LowerAttributed(s: Syntax, a: Attr)
    requires !IsPointer(FromSyntax(s))
    ensures FromSyntax(Attributed(s, a)) == Remark(FromSyntax(s), a)
  {
    var s1 := if a.w then Morphology("#", s, true) else s;
    var s2 := if a.b then Morphology("$", s1, true) else s1;
    WriteMarkRead(s);
    BlockMarkRead(s1);
    CedeMarkRead(s2);
  }

  lemma BindAttributed(s: Syntax, a: Attr, decl: Decl)
    ensures Bind(Attributed(s, a), decl) == Attributed(Bind(s, decl), a)
  {
    var s1 := if a.w then Morphology("#", s, true) else s;
    var s2 := if a.b then Morphology("$", s1, true) else s1;
    assert Bind(s1, decl) == if a.w then Morphology("#", Bind(s, decl), true) else Bind(s, decl);
    assert Bind(s2, decl) == if a.b then Morphology("$", Bind(s1, decl), true) else Bind(s1, decl);
  }

  /** On a node without marks the result is the node under the marks, with the block absorbing the
      write mark and the cede mark making a callable consuming. */
  lemma RemarkPlain(t: Ty, a: Attr)
    requires t.a == PLAIN && !IsPointer(t)
    ensures Remark(t, a).a == Attr(a.w && !a.b, false, a.b, a.c)
    ensures !t.Shape? && !t.Callable? ==> Remark(t, a) == SetAttr(t, Attr(a.w && !a.b, false, a.b, a.c))
    ensures t.Callable? ==>
      Remark(t, a) == t.(a := Attr(a.w && !a.b, false, a.b, a.c), mode := if a.c then ConsumingCall else t.mode)
    ensures t.Shape? ==>
      Remark(t, a) == t.(a := Attr(a.w && !a.b, false, a.b, a.c),
                         name := if t.decl.Decl? && (a.w || a.b || a.c) then t.decl.name else t.name)
  {
  }

  // ---------------------------------------------------------------- one node

  /** What the unmarked node of t lowers to, its parts lowered. */
  function Rebuilt(t: Ty): Ty
    requires !IsPointer(t)
  {
    match t
    case Atom(_, leaf) => if leaf.Primitive? then LowerName(leaf.name) else Atom(PLAIN, leaf)
    case Wrap(_, wrapper, inner) => Wrap(PLAIN, wrapper, FromSyntax(ToSyntax(inner)))
    case Array(_, elem, size, extent) =>
      if extent == "" then Array(PLAIN, FromSyntax(ToSyntax(elem)), size, "")
      else if FitsUInt64(extent) then Array(PLAIN, FromSyntax(ToSyntax(elem)), DecimalValue(extent), "")
      else Array(PLAIN, FromSyntax(ToSyntax(elem)), 0, extent)
    case Shape(_, name, args, variant, decl) =>
      if IsDynName(name) then Shape(PLAIN, name, [], "", NoDecl)
      else if args == [] then (if decl.Decl? then Shape(PLAIN, decl.name, [], "", decl) else LowerName(name))
      else if name == "Uninit" && |args| == 1 then Wrap(PLAIN, Uninit, LowerArgs(ToArgs(args))[0])
      else if name == "__PlaceOutcome" && |args| == 1 then Wrap(PLAIN, Place, LowerArgs(ToArgs(args))[0])
      else Shape(PLAIN, name, LowerArgs(ToArgs(args)), variant, decl)
    case Callable(_, form, params, ret, mode) =>
      Callable(PLAIN, form, LowerAll(ToSyntaxAll(params)),
               if ret.Atom? && ret.leaf.Unit? then Atom(PLAIN, Unit) else FromSyntax(ToSyntax(ret)),
               if mode.MutableCall? then MutableCall else SharedCall)
  }

  function BoundNaked(t: Ty): Syntax {
    if t.Shape? && t.decl.Decl? then Bind(Naked(t), t.decl) else Naked(t)
  }

  lemma PrefixAt(s: string, prefix: string, k: nat)
    requires StartsWith(s, prefix) && k < |prefix|
    ensures s[k] == prefix[k]
  {
    assert s[..|prefix|][k] == s[k];
  }

  lemma WordRead(form: CallForm, mode: Receiver)
    ensures var word := FunctionWord(form, mode);
            && !StartsWith(word, "cede ") && (StartsWith(word, "dyn fn") <==> form.DynFn?)
            && ((exists i | 0 <= i <= |word| :: StartsWith(word[i..], "fn#")) <==> mode.MutableCall?)
  {
    var word := FunctionWord(form, mode);
    if StartsWith(word, "cede ") {
      PrefixAt(word, "cede ", 0);
    }
    if form.DynFn? {
      assert word[..6] == "dyn fn";
    }
    if mode.MutableCall? {
      assert word[if form.DynFn? then 4 else 0..] == "fn#";
    } else {
      forall i | 0 <= i <= |word|
        ensures !StartsWith(word[i..], "fn#")
      {
        if StartsWith(word[i..], "fn#") {
          PrefixAt(word[i..], "fn#", 2);
        }
      }
    }
  }

  lemma WordsLowered()
    ensures FromSyntax(Name("never", NoDecl)) == Atom(PLAIN, Never)
    ensures FromSyntax(Name("void", NoDecl)) == Atom(PLAIN, Void)
  {
    if StartsWith("never", "nul ") {
      PrefixAt("never", "nul ", 1);
    }
    if StartsWith("never", "cede ") {
      PrefixAt("never", "cede ", 0);
    }
    assert !IsGeneratedLeaf("never") by {
      assert forall c | c in "never" :: 'a' <= c <= 'z';
    }
    assert !IsGeneratedLeaf("void") by {
      assert forall c | c in "void" :: 'a' <= c <= 'z';
    }
    assert LowerName("void") == Atom(PLAIN, Void) by {
      assert "void" != "never";
    }
  }

  lemma LowerNaked(t: Ty)
    requires Reifiable(t) && !IsPointer(t)
    ensures FromSyntax(BoundNaked(t)) == Rebuilt(t)
  {
    match t
    case Atom(_, _) => LowerAtom(t);
    case Wrap(_, _, _) => LowerWrapped(t);
    case Array(_, _, _, _) => LowerArray(t);
    case Shape(_, _, _, _, _) => LowerShape(t);
    case Callable(_, _, _, _, _) => LowerCallable(t);
  }

  lemma LowerAtom(t: Ty)
    requires t.Atom? && Reifiable(t)
    ensures FromSyntax(Naked(t)) == Rebuilt(t)
  {
    match t.leaf
    case Primitive(name) => assert FromSyntax(Name(name, NoDecl)) == LowerName(name);
    case Unit => assert FromSyntax(Tuple([])) == Atom(PLAIN, Unit);
    case Void => WordsLowered();
    case Never => WordsLowered();
    case Unresolved(name) => assert FromSyntax(Invalid(name)) == Atom(PLAIN, Unresolved(name));
  }

  lemma LowerArray(t: Ty)
    requires t.Array? && t.size < LIMIT64
    ensures FromSyntax(Naked(t)) == Rebuilt(t)
  {
    DecimalRoundTrip(t.size);
  }

  lemma LowerCallable(t: Ty)
    requires t.Callable?
    ensures FromSyntax(Naked(t)) == Rebuilt(t)
  {
    WordRead(t.form, t.mode);
  }

  lemma LowerWrapped(t: Ty)
    requires t.Wrap? && !IsPointer(t)
    ensures FromSyntax(Naked(t)) == Rebuilt(t)
  {
    var arg := TypeArg(ToSyntax(t.inner));
    assert LowerArgs([arg]) == [FromSyntax(ToSyntax(t.inner))];
  }

  lemma LowerShape(t: Ty)
    requires Reifiable(t) && t.Shape?
    ensures FromSyntax(BoundNaked(t)) == Rebuilt(t)
  {
    if IsDynName(t.name) {
      assert t.name == "dyn @" + t.name[5..];
      assert BoundNaked(t) == DynTrait(t.name[5..]);
    } else if t.args == [] {
      assert BoundNaked(t) == Name(t.name, t.decl);
    } else {
      var plain := Generic(Name(t.name, NoDecl), ToArgs(t.args), t.variant);
      assert Naked(t) == plain && Bind(plain, t.decl) == Generic(Name(t.name, t.decl), ToArgs(t.args), t.variant);
      assert Canonical(Name(t.name, t.decl)) == t.name;
    }
  }

  /** Reifying and lowering works node by node. */
  lemma LowerReified(t: Ty)
    requires Reifiable(t) && !IsPointer(t)
    ensures FromSyntax(ToSyntax(t)) == Remark(Rebuilt(t), t.a) && Rebuilt(t).a == PLAIN && !IsPointer(Rebuilt(t))
  {
    Spelled(t);
    LowerNaked(t);
    RebuiltPlain(t);
    LowerAttributed(BoundNaked(t), t.a);
  }

  lemma Spelled(t: Ty)
    requires !IsPointer(t)
    ensures ToSyntax(t) == Attributed(BoundNaked(t), t.a)
  {
    assert Reify(t) == Attributed(Naked(t), t.a);
    if t.Shape? && t.decl.Decl? {
      BindAttributed(Naked(t), t.a, t.decl);
    }
  }

  lemma RebuiltPlain(t: Ty)
    requires !IsPointer(t)
    ensures Rebuilt(t).a == PLAIN && !IsPointer(Rebuilt(t))
  {
  }

  /** A handle as lowering first builds it, before a cede mark. */
  function RebuiltHandle(t: Ty): Ty
    requires IsPointer(t)
  {
    Wrap(Attr(t.a.w, t.a.n && t.wrapper.Raw?, t.a.b, false), t.wrapper, FromSyntax(ToSyntax(t.inner)))
  }

  lemma LowerHandle(t: Ty)
    requires IsPointer(t)
    ensures FromSyntax(ToSyntax(t)) == if t.a.c then ApplyCede(RebuiltHandle(t)) else RebuiltHandle(t)
  {
    var text := HatSigil(t.wrapper, t.a.n) + HatMarkText(t.a);
    var hat := Morphology(text, ToSyntax(t.inner), false);
    assert ToSyntax(t) == if t.a.c then Morphology("cede ", hat, false) else hat;
    HatRead(t.wrapper, t.a, ToSyntax(t.inner));
    CedeMarkRead(hat);
  }

  lemma HatRead(w: Wrapper, a: Attr, inner: Syntax)
    requires IsHandle(w)
    ensures FromSyntax(Morphology(HatSigil(w, a.n) + HatMarkText(a), inner, false))
         == Wrap(Attr(a.w, a.n && w.Raw?, a.b, false), w, FromSyntax(inner))
  {
    var text := HatSigil(w, a.n) + HatMarkText(a);
    HatTextRead(w, a);
    assert text != "#" && text != "$" && text != "cede " && text != "nul";
  }

  lemma HatTextRead(w: Wrapper, a: Attr)
    requires IsHandle(w)
    ensures var text := HatSigil(w, a.n) + HatMarkText(a);
            && IsSigil(text[0]) && SigilHat(text[0]) == w && (text[0] == '?' <==> a.n && w.Raw?)
            && ('#' in text <==> a.w) && ('$' in text <==> a.b)
  {
    var text := HatSigil(w, a.n) + HatMarkText(a);
    assert a.w ==> text[1] == '#';
    assert a.b ==> text[|text| - 1] == '$';
    assert forall c | c in text :: c in HatSigil(w, a.n) || c in HatMarkText(a);
  }

  // ---------------------------------------------------------------- marks on handles

  /** A mark behind a handle is its pointee's: the handle keeps its own marks, and nothing else changes. */
  lemma PostfixMark(s: Syntax, write: bool)
    requires IsPointer(FromSyntax(s)) && Settled(FromSyntax(s)) && Settled(FromSyntax(s).inner)
    ensures var t := FromSyntax(s);
      var u := FromSyntax(Morphology(if write then "#" else "$", s, true));
      u == t.(inner := SetAttr(t.inner, u.inner.a))
      && u.inner.a == if write then t.inner.a.(w := !t.inner.a.b) else t.inner.a.(w := false, b := true)
  {
    MarkLowered(s, write, true);
  }

  /** A mark in front of a handle is the handle's own. */
  lemma PrefixMark(s: Syntax, write: bool)
    requires IsPointer(FromSyntax(s)) && Settled(FromSyntax(s))
    ensures var t := FromSyntax(s);
      FromSyntax(Morphology(if write then "#" else "$", s, false))
      == SetAttr(t, if write then t.a.(w := !t.a.b) else t.a.(w := false, b := true))
  {
    MarkLowered(s, write, false);
  }

  lemma MarkLowered(s: Syntax, write: bool, postfix: bool)
    ensures FromSyntax(Morphology(if write then "#" else "$", s, postfix)) == ApplyMark(FromSyntax(s), postfix, write)
  {
    var text := if write then "#" else "$";
    var m := Morphology(text, s, postfix);
    assert FromSyntax(m) == LowerMorphology(text, FromSyntax(s), postfix, Canonical(m));
  }

  /** A zero-able raw pointer is one type in both spellings, and nothing else can be zero-able. */
  lemma ZeroSpellings(s: Syntax)
    ensures FromSyntax(Morphology("nul", Morphology("*", s, false), false)) == FromSyntax(Morphology("?", s, false))
    ensures FromSyntax(Morphology("?", s, false)) == Wrap(PLAIN.(n := true), Raw, FromSyntax(s))
    ensures var t := FromSyntax(s);
      !IsRaw(t) ==> FromSyntax(Morphology("nul", s, false)) == Atom(PLAIN, Unresolved("nul" + Canonical(s)))
  {
    var raw, zero, nul := Morphology("*", s, false), Morphology("?", s, false), Morphology("nul", s, false);
    assert FromSyntax(raw) == LowerMorphology("*", FromSyntax(s), false, Canonical(raw));
    assert FromSyntax(zero) == LowerMorphology("?", FromSyntax(s), false, Canonical(zero));
    assert FromSyntax(nul) == LowerMorphology("nul", FromSyntax(s), false, Canonical(nul));
    var both := Morphology("nul", raw, false);
    assert FromSyntax(both) == LowerMorphology("nul", FromSyntax(raw), false, Canonical(both));
  }

  // ---------------------------------------------------------------- the theorem

  /** A type comes back from its own syntax exactly when it is stable. */
  lemma {:induction false} SyntaxRoundTripIff(t: Ty)
    requires Reifiable(t)
    ensures FromSyntax(ToSyntax(t)) == t <==> Stable(t)
    decreases t, 2
  {
    if IsPointer(t) {
      SyntaxRoundTripIff(t.inner);
      LowerHandle(t);
    } else {
      match t {
        case Atom(_, _) =>
        case Wrap(_, _, inner) => SyntaxRoundTripIff(inner);
        case Array(_, elem, _, _) => SyntaxRoundTripIff(elem);
        case Shape(_, _, args, _, _) => ArgsRoundTripIff(args);
        case Callable(_, _, params, ret, _) =>
          ListRoundTripIff(params);
          SyntaxRoundTripIff(ret);
      }
      NodeRoundTripIff(t);
    }
  }

  /** The parts of t come back exactly when they are stable. */
  predicate PartsDecided(t: Ty) {
    match t
    case Atom(_, _) => true
    case Wrap(_, _, inner) => FromSyntax(ToSyntax(inner)) == inner <==> Stable(inner)
    case Array(_, elem, _, _) => FromSyntax(ToSyntax(elem)) == elem <==> Stable(elem)
    case Shape(_, _, args, _, _) => LowerArgs(ToArgs(args)) == args <==> StableArgs(args)
    case Callable(_, _, params, ret, _) =>
      && (LowerAll(ToSyntaxAll(params)) == params <==> StableAll(params))
      && (FromSyntax(ToSyntax(ret)) == ret <==> Stable(ret))
  }

  lemma NodeRoundTripIff(t: Ty)
    requires Reifiable(t) && !IsPointer(t) && PartsDecided(t)
    ensures FromSyntax(ToSyntax(t)) == t <==> Stable(t)
  {
    LowerReified(t);
    RebuiltIff(t);
  }

  lemma RebuiltIff(t: Ty)
    requires Reifiable(t) && !IsPointer(t) && PartsDecided(t)
    ensures Remark(Rebuilt(t), t.a) == t <==> Stable(t)
  {
    if t.Shape? {
      RebuiltShapeIff(t);
    } else if t.Callable? {
      RebuiltCallableIff(t);
    } else {
      RebuiltPlain(t);
      RemarkPlain(Rebuilt(t), t.a);
    }
  }

  lemma RebuiltShapeIff(t: Ty)
    requires t.Shape? && Reifiable(t) && PartsDecided(t)
    ensures Remark(Rebuilt(t), t.a) == t <==> Stable(t)
  {
    RebuiltPlain(t);
    RemarkPlain(Rebuilt(t), t.a);
  }

  lemma RebuiltCallableIff(t: Ty)
    requires t.Callable? && Reifiable(t) && PartsDecided(t)
    ensures Remark(Rebuilt(t), t.a) == t <==> Stable(t)
  {
    RebuiltPlain(t);
    RemarkPlain(Rebuilt(t), t.a);
  }

  lemma {:induction false} ListRoundTripIff(ts: seq<Ty>)
    requires ReifiableAll(ts)
    ensures LowerAll(ToSyntaxAll(ts)) == ts <==> StableAll(ts)
    decreases ts, 1
  {
    if ts != [] {
      SyntaxRoundTripIff(ts[0]);
      ListRoundTripIff(ts[1..]);
      assert LowerAll(ToSyntaxAll(ts)) == [FromSyntax(ToSyntax(ts[0]))] + LowerAll(ToSyntaxAll(ts[1..]));
      assert ts == [ts[0]] + ts[1..];
    }
  }

  lemma {:induction false} ArgsRoundTripIff(ts: seq<Ty>)
    requires ReifiableAll(ts)
    ensures LowerArgs(ToArgs(ts)) == ts <==> StableArgs(ts)
    decreases ts, 1
  {
    if ts != [] {
      SyntaxRoundTripIff(ts[0]);
      ArgumentRead(ts[0]);
      ArgsRoundTripIff(ts[1..]);
      assert LowerArgs(ToArgs(ts)) == [LowerArg(ToArg(ToSyntax(ts[0])))] + LowerArgs(ToArgs(ts[1..]));
      assert ts == [ts[0]] + ts[1..];
    }
  }

  predicate Unmarked(t: Ty) {
    !t.a.w && !t.a.b && !t.a.c
  }

  lemma MarkedArgument(t: Ty)
    requires !Unmarked(t) || IsPointer(t)
    ensures !ToSyntax(t).Name?
  {
  }

  lemma AtomArgument(t: Ty)
    requires t.Atom? && Unmarked(t)
    ensures (ToSyntax(t).Name? && IsConstText(ToSyntax(t).text)) <==> LooksConstant(t)
    ensures LooksConstant(t) ==> ToSyntax(t).text == t.leaf.name
  {
    assert !IsDigit("never"[0]) && "never"[4] != '_' && !IsDigit("void"[0]) && "void"[3] != '_';
    assert !IsConstText("never") && !IsConstText("void");
    assert ToSyntax(t) == Naked(t);
  }

  lemma ShapeArgument(t: Ty)
    requires t.Shape? && Unmarked(t)
    ensures (ToSyntax(t).Name? && IsConstText(ToSyntax(t).text)) <==> LooksConstant(t)
    ensures LooksConstant(t) ==> ToSyntax(t).text == t.name
  {
    assert Reify(t) == Naked(t);
    assert ToSyntax(t) == if t.decl.Decl? then Bind(Naked(t), t.decl) else Naked(t);
  }

  /** The reifier takes an argument for a constant exactly when it looks like one. */
  lemma ArgumentRead(t: Ty)
    ensures LowerArg(ToArg(ToSyntax(t)))
         == if LooksConstant(t) then Shape(PLAIN, if t.Atom? then t.leaf.name else t.name, [], "", NoDecl)
            else FromSyntax(ToSyntax(t))
  {
    if !Unmarked(t) || IsPointer(t) {
      MarkedArgument(t);
    } else if t.Atom? {
      AtomArgument(t);
    } else if t.Shape? {
      ShapeArgument(t);
    } else {
      assert ToSyntax(t) == Naked(t);
    }
  }
}
