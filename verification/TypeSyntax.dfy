/** Source-level type syntax, the reifier toSyntax and the lowering fromSyntax. */
module TypeSyntax {
  import opened Text
  import opened Types
  import opened TypeString

  datatype Arg = TypeArg(syntax: Syntax) | ConstArg(text: string)

  datatype Syntax =
    | Invalid(text: string)
    | Name(text: string, decl: Decl)
    | Generic(subject: Syntax, arguments: seq<Arg>, suffix: string)
    | ArrayOf(subject: Syntax, extent: string)
    | SliceOf(subject: Syntax)
    | Tuple(elements: seq<Syntax>)
    | Record(names: seq<string>, elements: seq<Syntax>)
    | Function(text: string, elements: seq<Syntax>, result: Syntax, explicitResult: bool, variadic: bool)
    | DynTrait(text: string)
    | Projection(subject: Syntax, text: string, member: string)
    | Morphology(text: string, subject: Syntax, postfix: bool)
    | MissOf(subject: Syntax)

  // ---------------------------------------------------------------- canonical spelling

  function Canonical(s: Syntax): string
    decreases s, 1
  {
    match s
    case Invalid(text) => text
    case Name(text, _) => text
    case DynTrait(text) => "dyn @" + text
    case Generic(subject, arguments, suffix) => Canonical(subject) + "<" + CanonicalArgs(arguments) + ">" + suffix
    case ArrayOf(subject, extent) => "[" + Canonical(subject) + ";" + extent + "]"
    case SliceOf(subject) => "[" + Canonical(subject) + "]"
    case Tuple(elements) => "(" + CanonicalList(elements, "") + ")"
    case Record(names, elements) => "(" + CanonicalFields(names, elements) + ")"
    case Function(text, elements, result, explicitResult, variadic) =>
      text + "(" + CanonicalList(elements, if variadic then "..." else "") + ")" +
      (if explicitResult then "->" + Canonical(result) else "")
    case Projection(subject, text, member) => Canonical(subject) + "@" + text + "::" + member
    case Morphology(text, subject, postfix) => if postfix then Canonical(subject) + text else text + Canonical(subject)
    case MissOf(subject) => Canonical(subject) + "|miss"
  }

  function CanonicalArgs(args: seq<Arg>): string
    decreases args, 0
  {
    if args == [] then ""
    else CanonicalArg(args[0]) + (if |args| == 1 then "" else ",") + CanonicalArgs(args[1..])
  }

  function CanonicalArg(arg: Arg): string
    decreases arg, 0
  {
    match arg case TypeArg(syntax) => Canonical(syntax) case ConstArg(text) => text
  }

  /** Comma-separated elements, then `last` as one more element unless it is empty. */
  function CanonicalList(ss: seq<Syntax>, last: string): string
    decreases ss, 0
  {
    if ss == [] then last
    else Canonical(ss[0]) + (if |ss| == 1 && last == "" then "" else ",") + CanonicalList(ss[1..], last)
  }

  function CanonicalFields(names: seq<string>, ss: seq<Syntax>): string
    decreases ss, 0
  {
    if ss == [] || names == [] then ""
    else names[0] + ":" + Canonical(ss[0]) + (if |ss| == 1 then "" else ",") + CanonicalFields(names[1..], ss[1..])
  }

  // ---------------------------------------------------------------- lowering

  /** A whole semantic spelling parked in a named node, which goes through the string parser. */
  predicate IsGeneratedLeaf(name: string) {
    StartsWith(name, "nul ") || StartsWith(name, "cede ") ||
    exists c | c in name :: IsSigil(c) || c == '<' || c == '[' || c == '('
  }

  /** Lowering also knows the primitive "none", which the string parser does not. */
  predicate IsPrimitiveWord(name: string) {
    IsPrimitiveName(name) || name == "none"
  }

  function LowerName(name: string): Ty {
    if name == "never" then Atom(PLAIN, Never)
    else if name == "void" then Atom(PLAIN, Void)
    else if name == "unknown" then Atom(PLAIN, Unresolved(name))
    else if IsPrimitiveWord(name) then Atom(PLAIN, Primitive(name))
    else Shape(PLAIN, name, [], "", NoDecl)
  }

  function ReplacePointee(pointer: Ty, pointee: Ty): Ty
    requires IsPointer(pointer)
  {
    Wrap(pointer.a.(n := pointer.a.n && pointer.wrapper.Raw?), pointer.wrapper, pointee)
  }

  /** A trailing mark on a handle belongs to its pointee; before a handle it belongs to the handle. */
  function ApplyMark(t: Ty, postfix: bool, write: bool): Ty {
    if postfix && IsPointer(t) then
      ReplacePointee(t, WithAttributes(t.inner, write || t.inner.a.w, t.inner.a.n, !write || t.inner.a.b))
    else WithAttributes(t, write || t.a.w, t.a.n, !write || t.a.b)
  }

  function ApplyCede(t: Ty): Ty {
    var kept := WithAttributes(t, t.a.w, t.a.n, t.a.b);
    var ceded := kept.(a := kept.a.(c := true));
    if ceded.Callable? then ceded.(mode := ConsumingCall) else ceded
  }

  function LowerMorphology(text: string, t: Ty, postfix: bool, spelling: string): Ty {
    if text == "#" then ApplyMark(t, postfix, true)
    else if postfix && text != "" && text[0] == '?' then Atom(PLAIN, Unresolved(spelling))
    else if text == "$" then ApplyMark(t, postfix, false)
    else if text == "cede " then ApplyCede(t)
    else if text == "nul" then
      if IsRaw(t) then WithAttributes(t, t.a.w, true, t.a.b) else Atom(PLAIN, Unresolved(spelling))
    else if !postfix && text != "" && IsSigil(text[0]) then
      Wrap(Attr('#' in text, text[0] == '?', '$' in text, false), SigilHat(text[0]), t)
    else Atom(PLAIN, Unresolved(spelling))
  }

  function FromSyntax(s: Syntax): Ty
    decreases s, 1
  {
    match s
    case Invalid(text) => Atom(PLAIN, Unresolved(text))
    case Name(text, decl) =>
      if decl.Decl? then Shape(PLAIN, decl.name, [], "", decl)
      else if IsGeneratedLeaf(text) then FromString(text) else LowerName(text)
    case Generic(subject, arguments, suffix) =>
      var args := LowerArgs(arguments);
      var name := Canonical(subject);
      if name == "Uninit" && |args| == 1 then Wrap(PLAIN, Uninit, args[0])
      else if name == "__PlaceOutcome" && |args| == 1 then Wrap(PLAIN, Place, args[0])
      else Shape(PLAIN, name, args, suffix, if subject.Name? then subject.decl else NoDecl)
    case MissOf(subject) => Wrap(PLAIN, Miss, FromSyntax(subject))
    case ArrayOf(subject, extent) =>
      if FitsUInt64(extent) then Array(PLAIN, FromSyntax(subject), DecimalValue(extent), "")
      else Array(PLAIN, FromSyntax(subject), 0, extent)
    case SliceOf(subject) => Wrap(PLAIN, Slice, FromSyntax(subject))
    case Tuple(elements) => if elements == [] then Atom(PLAIN, Unit) else Shape(PLAIN, Canonical(s), [], "", NoDecl)
    case Record(_, _) => Shape(PLAIN, Canonical(s), [], "", NoDecl)
    case Projection(_, _, _) => Shape(PLAIN, Canonical(s), [], "", NoDecl)
    case DynTrait(text) => Shape(PLAIN, "dyn @" + text, [], "", NoDecl)
    case Function(text, elements, result, explicitResult, variadic) =>
      var ret := if explicitResult then FromSyntax(result) else Atom(PLAIN, Unit);
      var consuming := StartsWith(text, "cede ");
      var mode := if consuming then ConsumingCall
                  else if exists i | 0 <= i <= |text| :: StartsWith(text[i..], "fn#") then MutableCall else SharedCall;
      Callable(PLAIN.(c := consuming), if StartsWith(text, "dyn fn") then DynFn else PlainFn(variadic),
               LowerAll(elements), ret, mode)
    case Morphology(text, subject, postfix) => LowerMorphology(text, FromSyntax(subject), postfix, Canonical(s))
  }

  function LowerAll(ss: seq<Syntax>): (ts: seq<Ty>)
    ensures |ts| == |ss|
    decreases ss, 0
  {
    if ss == [] then [] else [FromSyntax(ss[0])] + LowerAll(ss[1..])
  }

  function LowerArgs(args: seq<Arg>): (ts: seq<Ty>)
    ensures |ts| == |args|
    decreases args, 0
  {
    if args == [] then []
    else [LowerArg(args[0])] + LowerArgs(args[1..])
  }

  /** A constant argument is carried as an unbound shape of that name. */
  function LowerArg(arg: Arg): Ty
    decreases arg, 0
  {
    match arg case TypeArg(syntax) => FromSyntax(syntax) case ConstArg(text) => Shape(PLAIN, text, [], "", NoDecl)
  }

  // ---------------------------------------------------------------- reifying

  function Attributed(s: Syntax, a: Attr): Syntax {
    var s1 := if a.w then Morphology("#", s, true) else s;
    var s2 := if a.b then Morphology("$", s1, true) else s1;
    if a.c then Morphology("cede ", s2, false) else s2
  }

  /** The declaration of a bound shape is attached to the name under its wrappers. */
  function Bind(s: Syntax, decl: Decl): Syntax {
    match s
    case Name(text, _) => Name(text, decl)
    case Generic(subject, arguments, suffix) => Generic(Bind(subject, decl), arguments, suffix)
    case Morphology(text, subject, postfix) => Morphology(text, Bind(subject, decl), postfix)
    case _ => s
  }

  predicate IsConstText(text: string) {
    text != "" && (AllDigits(text) || text[|text| - 1] == '_')
  }

  function ToArg(s: Syntax): Arg {
    if s.Name? && IsConstText(s.text) then ConstArg(s.text) else TypeArg(s)
  }

  function FunctionWord(form: CallForm, mode: Receiver): string {
    if form.DynFn? then (if mode.MutableCall? then "dyn fn#" else "dyn fn")
    else if mode.MutableCall? then "fn#" else "fn"
  }

  function ToSyntax(t: Ty): Syntax
    decreases t, 2
  {
    if t.Shape? && t.decl.Decl? then Bind(Reify(t), t.decl) else Reify(t)
  }

  function Reify(t: Ty): Syntax
    decreases t, 1
  {
    if IsPointer(t) then
      var hat := Morphology(HatSigil(t.wrapper, t.a.n) + HatMarkText(t.a), ToSyntax(t.inner), false);
      if t.a.c then Morphology("cede ", hat, false) else hat
    else Attributed(Naked(t), t.a)
  }

  /** The node itself, without its attributes. */
  function Naked(t: Ty): Syntax
    decreases t, 0
  {
    match t
    case Atom(_, leaf) => (match leaf
      case Unit => Tuple([])
      case Never => Name("never", NoDecl)
      case Void => Name("void", NoDecl)
      case Primitive(name) => Name(name, NoDecl)
      case Unresolved(name) => Invalid(name))
    case Wrap(_, wrapper, inner) => (match wrapper
      case Slice => SliceOf(ToSyntax(inner))
      case Miss => MissOf(ToSyntax(inner))
      case _ => Generic(Name(GenericName(wrapper), NoDecl), [TypeArg(ToSyntax(inner))], ""))
    case Array(_, elem, size, extent) => ArrayOf(ToSyntax(elem), if extent == "" then Decimal(size) else extent)
    case Shape(_, name, args, variant, _) =>
      if StartsWith(name, "dyn @") then DynTrait(name[5..])
      else if args == [] then Name(name, NoDecl)
      else Generic(Name(name, NoDecl), ToArgs(args), variant)
    case Callable(_, form, params, ret, mode) =>
      Function(FunctionWord(form, mode), ToSyntaxAll(params), ToSyntax(ret), !(ret.Atom? && ret.leaf.Unit?),
               form.PlainFn? && form.variadic)
  }

  function ToSyntaxAll(ts: seq<Ty>): (ss: seq<Syntax>)
    ensures |ss| == |ts|
    decreases ts, 3
  {
    if ts == [] then [] else [ToSyntax(ts[0])] + ToSyntaxAll(ts[1..])
  }

  function ToArgs(ts: seq<Ty>): (args: seq<Arg>)
    ensures |args| == |ts|
    decreases ts, 3
  {
    if ts == [] then [] else [ToArg(ToSyntax(ts[0]))] + ToArgs(ts[1..])
  }
}
