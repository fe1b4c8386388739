/** The mangled names that symbols are built from. */
module Mangling {
  import opened Text
  import opened Types
  import opened TypeString
  import Id = Identity

  // ---------------------------------------------------------------- the name

  predicate IsAlnum(c: char) {
    IsDigit(c) || 'a' <= c <= 'z' || 'A' <= c <= 'Z'
  }

  function MangledChar(c: char): char {
    if c == '^' then 'U'
    else if c == '*' then 'R'
    else if c == '~' then 'S'
    else if c == '&' then 'B'
    else if c == '?' then 'O'
    else if c == '#' then 'M'
    else if c == '!' then 'K'
    else if !IsAlnum(c) && c != '_' then '_'
    else c
  }

  function Sanitized(s: string): (r: string)
    ensures |r| == |s| && forall i | 0 <= i < |s| :: r[i] == MangledChar(s[i])
  {
    if s == "" then "" else [MangledChar(s[0])] + Sanitized(s[1..])
  }

  function Letters(a: Attr): string {
    Mark(a.c, "C") + (Mark(a.w, "M") + (Mark(a.n, "O") + Mark(a.b, "K")))
  }

  /** A length, '_' and the value: the frame of a nested name. */
  function Boxed(value: string): (s: string)
    ensures s != "" && IsDigit(s[0])
  {
    Decimal(|value|) + ("_" + value)
  }

  function BoxedAll(values: seq<string>): string {
    if values == [] then "" else Boxed(values[0]) + BoxedAll(values[1..])
  }

  function WrapperLetter(w: Wrapper): string {
    match w
    case Raw => "R"
    case Unique => "U"
    case Shared => "S"
    case Ref => "B"
    case Slice => "L"
    case Miss => "O"
    case Uninit => "I"
    case Place => "P"
  }

  function Mangled(t: Ty): string
    decreases t, 1
  {
    match t
    case Atom(_, _) => Sanitized(ToString(t))
    case Wrap(a, wrapper, inner) => WrapperLetter(wrapper) + (Letters(a) + Boxed(Mangled(inner)))
    case Array(a, elem, size, extent) =>
      "A" + (Letters(a) + (Boxed(Id.Extent(size, extent)) + Boxed(Mangled(elem))))
    case Callable(a, form, params, ret, mode) =>
      (if form.PlainFn? then "F" else "D") + (Letters(a) +
      (CallHead(form, mode) + BoxedAll(MangledAll(params) + [Mangled(ret)])))
    case Shape(a, _, args, variant, decl) =>
      ShapeBase(t) + (if args == [] then "" else "_G" + Underscored(MangledAll(args)))
  }

  function CallHead(form: CallForm, mode: Receiver): string {
    Decimal(Id.ReceiverCode(mode)) + (if form.PlainFn? then (if form.variadic then "_1_" else "_0_") else "_")
  }

  function MangledAll(ts: seq<Ty>): (names: seq<string>)
    ensures |names| == |ts|
    decreases ts, 0
  {
    if ts == [] then [] else [Mangled(ts[0])] + MangledAll(ts[1..])
  }

  function Underscored(names: seq<string>): string {
    if names == [] then "" else "_" + names[0] + Underscored(names[1..])
  }

  /** A declaration with a nominal id or a code-generation name gives a stable base; any other shape is
      named by its printed text. */
  function ShapeBase(t: Ty): string
    requires t.Shape?
  {
    if t.decl.Decl? && t.decl.nominal.Some? then NominalName(t.decl.nominal.value) + StableTail(t.a, t.variant)
    else if t.decl.Decl? && t.decl.template.Decl? && t.decl.codegenName != "" then
      t.decl.codegenName + StableTail(t.a, t.variant)
    else Sanitized(ToString(t))
  }

  /** Hexadecimal digits of the low byte of each character: exact for byte strings. */
  function HexBytes(s: string): string {
    if IsBytes(s) then Hex(s) else ""
  }

  function NominalName(canonical: string): string {
    "N" + HexBytes(canonical)
  }

  function StableTail(a: Attr, variant: string): string {
    "_A" + (Letters(a.(n := false)) + VariantText(variant))
  }

  function VariantText(variant: string): string {
    if variant == "" then "" else "_V" + HexBytes(variant)
  }

  // ---------------------------------------------------------------- the compiler's loops

  method SanitizeText(text: string) returns (result: string)
    ensures result == Sanitized(text)
  {
    result := text;
    for i := 0 to |result|
      invariant |result| == |text|
      invariant forall j | 0 <= j < i :: result[j] == MangledChar(text[j])
      invariant forall j | i <= j < |text| :: result[j] == text[j]
    {
      result := result[i := MangledChar(result[i])];
    }
    assert forall j | 0 <= j < |text| :: result[j] == Sanitized(text)[j];
  }

  lemma {:induction false} BoxedAppend(values: seq<string>, value: string)
    ensures BoxedAll(values + [value]) == BoxedAll(values) + Boxed(value)
  {
    if values == [] {
      assert BoxedAll([value]) == Boxed(value) + BoxedAll([]);
    } else {
      assert (values + [value])[1..] == values[1..] + [value];
      BoxedAppend(values[1..], value);
    }
  }

  lemma {:induction false} MangledAllAt(ts: seq<Ty>, i: nat)
    requires i < |ts|
    ensures MangledAll(ts)[i] == Mangled(ts[i])
  {
    if i > 0 {
      MangledAllAt(ts[1..], i - 1);
    }
  }

  /** The parameter loop of the callable forms, and the result behind it. */
  method BoxCallable(head: string, params: seq<string>, ret: string) returns (result: string)
    ensures result == head + BoxedAll(params + [ret])
  {
    var boxes := "";
    for i := 0 to |params|
      invariant boxes == BoxedAll(params[..i])
    {
      assert params[..i + 1] == params[..i] + [params[i]];
      BoxedAppend(params[..i], params[i]);
      boxes := boxes + Boxed(params[i]);
    }
    assert params[..|params|] == params;
    BoxedAppend(params, ret);
    result := head + (boxes + Boxed(ret));
  }

  lemma OneMore(all: seq<string>, i: nat)
    requires i < |all|
    ensures all[..i + 1] == all[..i] + [all[i]]
  {
  }

  method MangledNames(ts: seq<Ty>) returns (names: seq<string>)
    ensures names == MangledAll(ts)
    decreases ts, 0
  {
    names := [];
    ghost var all := MangledAll(ts);
    for i := 0 to |ts|
      invariant names == all[..i]
    {
      var name := MangledName(ts[i]);
      MangledAllAt(ts, i);
      OneMore(all, i);
      names := names + [name];
    }
    assert all[..|ts|] == all;
  }

  method MangledName(t: Ty) returns (name: string)
    ensures name == Mangled(t)
    decreases t, 1
  {
    match t {
      case Atom(_, _) => name := SanitizeText(ToString(t));
      case Wrap(a, wrapper, inner) =>
        var pointee := MangledName(inner);
        name := WrapperLetter(wrapper) + (Letters(a) + Boxed(pointee));
      case Array(a, elem, size, extent) =>
        var element := MangledName(elem);
        name := "A" + (Letters(a) + (Boxed(Id.Extent(size, extent)) + Boxed(element)));
      case Callable(a, form, params, ret, mode) =>
        var names := MangledNames(params);
        var result := MangledName(ret);
        var boxes := BoxCallable("", names, result);
        assert boxes == BoxedAll(names + [result]);
        name := (if form.PlainFn? then "F" else "D") + (Letters(a) + (CallHead(form, mode) + boxes));
      case Shape(a, _, args, variant, decl) =>
        var base := ShapeBase(t);
        var names := MangledNames(args);
        name := base + (if args == [] then "" else "_G" + Underscored(names));
    }
  }

  // ---------------------------------------------------------------- reading frames back

  /** A frame in front of a rest determines its value and the rest. */
  lemma BoxedUnique(v1: string, rest1: string, v2: string, rest2: string)
    requires Boxed(v1) + rest1 == Boxed(v2) + rest2
    ensures v1 == v2 && rest1 == rest2
  {
    var t1, t2 := "_" + (v1 + rest1), "_" + (v2 + rest2);
    assert Boxed(v1) + rest1 == Decimal(|v1|) + t1 && Boxed(v2) + rest2 == Decimal(|v2|) + t2;
    SpanUnique(c => IsDigit(c), Decimal(|v1|), t1, Decimal(|v2|), t2);
    DecimalInjective(|v1|, |v2|);
    assert t1[1..] == v1 + rest1 && t2[1..] == v2 + rest2;
    SplitSameLength(v1, rest1, v2, rest2);
  }

  lemma {:induction false} BoxedAllUnique(vs1: seq<string>, vs2: seq<string>)
    requires BoxedAll(vs1) == BoxedAll(vs2)
    ensures vs1 == vs2
  {
    if vs1 != [] && vs2 != [] {
      BoxedUnique(vs1[0], BoxedAll(vs1[1..]), vs2[0], BoxedAll(vs2[1..]));
      BoxedAllUnique(vs1[1..], vs2[1..]);
      assert vs1 == [vs1[0]] + vs1[1..] && vs2 == [vs2[0]] + vs2[1..];
    }
  }

  predicate IsLetter(c: char) {
    c == 'C' || c == 'M' || c == 'O' || c == 'K'
  }

  lemma LettersPlain(a: Attr)
    ensures forall i | 0 <= i < |Letters(a)| :: IsLetter(Letters(a)[i])
    ensures 'C' in Letters(a) <==> a.c
    ensures 'M' in Letters(a) <==> a.w
    ensures 'O' in Letters(a) <==> a.n
    ensures 'K' in Letters(a) <==> a.b
  {
  }

  /** Attribute letters end where a frame or anything else that is no letter begins. */
  lemma LettersUnique(a: Attr, rest1: string, b: Attr, rest2: string)
    requires Letters(a) + rest1 == Letters(b) + rest2
    requires rest1 != "" && !IsLetter(rest1[0]) && rest2 != "" && !IsLetter(rest2[0])
    ensures a == b && rest1 == rest2
  {
    LettersPlain(a);
    LettersPlain(b);
    SpanUnique(c => IsLetter(c), Letters(a), rest1, Letters(b), rest2);
  }

  // ---------------------------------------------------------------- the types the names tell apart

  /** Primitives, the plain unit, void and never types, argument-free nominal shapes, and everything
      built from them by handles, arrays, slices, outcomes, uninit and function types. */
  predicate Nameable(t: Ty)
    decreases t, 1
  {
    match t
    case Atom(a, leaf) =>
      if leaf.Primitive? then IsPrimitiveName(leaf.name) && !a.n else a == PLAIN && !leaf.Unresolved?
    case Wrap(_, _, inner) => Nameable(inner)
    case Array(_, elem, size, extent) => ExtentOk(size, extent) && Nameable(elem)
    case Callable(_, _, params, ret, _) => NameableAll(params) && Nameable(ret)
    case Shape(a, _, args, variant, decl) =>
      args == [] && !a.n && decl.Decl? && decl.nominal.Some? && IsBytes(decl.nominal.value) && IsBytes(variant)
  }

  predicate NameableAll(ts: seq<Ty>)
    decreases ts, 0
  {
    ts != [] ==> Nameable(ts[0]) && NameableAll(ts[1..])
  }

  // ---------------------------------------------------------------- leaves

  /** The characters of primitive names. */
  predicate IsWordChar(c: char) {
    IsAlnum(c) && c != 'M'
  }

  function LeafHead(t: Ty): string
    requires t.Atom?
  {
    match t.leaf
    case Primitive(name) => if t.a.c then "cede" else name
    case Unit => ""
    case Void => "void"
    case Never => "never"
    case Unresolved(_) => ""
  }

  function PrimitiveTail(a: Attr): string {
    Mark(a.b, "_") + Mark(a.w, "M")
  }

  function LeafTail(t: Ty): string
    requires t.Atom?
  {
    match t.leaf
    case Primitive(name) => if t.a.c then "_" + (name + PrimitiveTail(t.a)) else PrimitiveTail(t.a)
    case Unit => "__"
    case _ => ""
  }

  lemma {:induction false} SanitizedConcat(s: string, t: string)
    ensures Sanitized(s + t) == Sanitized(s) + Sanitized(t)
  {
    assert |Sanitized(s + t)| == |Sanitized(s) + Sanitized(t)|;
    assert forall i | 0 <= i < |s + t| :: Sanitized(s + t)[i] == (Sanitized(s) + Sanitized(t))[i];
  }

  lemma SanitizedWord(s: string)
    requires forall i | 0 <= i < |s| :: IsAlnum(s[i]) || s[i] == '_'
    ensures Sanitized(s) == s
  {
    forall i | 0 <= i < |s|
      ensures Sanitized(s)[i] == s[i]
    {
      CharKept(s[i]);
    }
  }

  lemma CharKept(c: char)
    requires IsAlnum(c) || c == '_'
    ensures MangledChar(c) == c
  {
  }

  predicate IsMarkOrSigil(c: char) {
    c in "^*~&?#!"
  }

  /** A mangled text is an identifier; names pass unchanged, and marks and sigils stay apart. */
  lemma CharsApart(c: char, d: char)
    ensures IsAlnum(MangledChar(c)) || MangledChar(c) == '_'
    ensures IsAlnum(c) || c == '_' <==> MangledChar(c) == c
    ensures IsMarkOrSigil(c) && IsMarkOrSigil(d) && c != d ==> MangledChar(c) != MangledChar(d)
    ensures MangledChar(c) == '_' <==> !IsAlnum(c) && !IsMarkOrSigil(c)
  {
  }

  lemma PrimitiveWord(name: string)
    requires IsPrimitiveName(name)
    ensures name != "" && forall i | 0 <= i < |name| :: IsWordChar(name[i])
  {
  }

  lemma PrimitiveIsNoHead(name: string)
    requires IsPrimitiveName(name)
    ensures name != "cede" && name != "void" && name != "never" && name != ""
  {
  }

  lemma SanitizedMarks(a: Attr)
    ensures Sanitized(Mark(a.b, "$") + Mark(a.w, "#")) == PrimitiveTail(a)
    ensures Sanitized("cede ") == "cede_"
  {
  }

  lemma LeafMangled(t: Ty)
    requires Nameable(t) && t.Atom?
    ensures Mangled(t) == LeafHead(t) + LeafTail(t)
    ensures forall i | 0 <= i < |LeafHead(t)| :: IsWordChar(LeafHead(t)[i])
  {
    HeadIsWord(t);
    if t.leaf.Primitive? {
      PrimitiveMangled(t.leaf.name, t.a);
    } else {
      WordMangled(t);
    }
  }

  lemma HeadIsWord(t: Ty)
    requires Nameable(t) && t.Atom?
    ensures forall i | 0 <= i < |LeafHead(t)| :: IsWordChar(LeafHead(t)[i])
  {
    if t.leaf.Primitive? {
      PrimitiveWord(t.leaf.name);
    }
  }

  lemma WordMangled(t: Ty)
    requires Nameable(t) && t.Atom? && !t.leaf.Primitive?
    ensures Mangled(t) == LeafHead(t) + LeafTail(t)
  {
    var text := Body(t);
    assert text + "" == text && "" + text == text;
    assert ToString(t) == text;
    match t.leaf
    case Unit => UnitSanitized();
    case Void => SanitizedWord("void");
    case Never => SanitizedWord("never");
  }

  lemma UnitSanitized()
    ensures Sanitized("()") == "__"
  {
    var s := Sanitized("()");
    assert s[0] == MangledChar('(') && s[1] == MangledChar(')');
    assert !IsAlnum('(') && !IsAlnum(')');
  }

  lemma PrimitiveMangled(name: string, a: Attr)
    requires IsPrimitiveName(name)
    ensures Mangled(Atom(a, Primitive(name))) == LeafHead(Atom(a, Primitive(name))) + LeafTail(Atom(a, Primitive(name)))
  {
    PrimitivePrinted(name, a);
    SanitizedPrimitive(name, a);
    CedeSplit(a.c, name, PrimitiveTail(a));
  }

  lemma PrimitivePrinted(name: string, a: Attr)
    ensures ToString(Atom(a, Primitive(name))) == Mark(a.c, "cede ") + (name + (Mark(a.b, "$") + Mark(a.w, "#")))
  {
  }

  lemma CedeSplit(cede: bool, name: string, tail: string)
    ensures Mark(cede, "cede_") + (name + tail) == if cede then "cede" + ("_" + (name + tail)) else name + tail
  {
    var text := name + tail;
    if cede {
      assert "cede_" + text == "cede" + ("_" + text);
    } else {
      assert "" + text == text;
    }
  }

  lemma SanitizedPrimitive(name: string, a: Attr)
    requires IsPrimitiveName(name)
    ensures Sanitized(Mark(a.c, "cede ") + (name + (Mark(a.b, "$") + Mark(a.w, "#"))))
         == Mark(a.c, "cede_") + (name + PrimitiveTail(a))
  {
    var marks := Mark(a.b, "$") + Mark(a.w, "#");
    PrimitiveWord(name);
    SanitizedWord(name);
    SanitizedMarks(a);
    SanitizedConcat(name, marks);
    SanitizedConcat(Mark(a.c, "cede "), name + marks);
    assert Sanitized("") == "";
  }

  lemma LeafTailPlain(t: Ty)
    requires t.Atom?
    ensures !IsWordChar((LeafTail(t) + ";")[0])
  {
  }

  /** A word in front of a tail, behind which a terminator is put. */
  lemma HeadUnique(h1: string, t1: string, h2: string, t2: string)
    requires h1 + t1 == h2 + t2
    requires forall i | 0 <= i < |h1| :: IsWordChar(h1[i])
    requires forall i | 0 <= i < |h2| :: IsWordChar(h2[i])
    requires !IsWordChar((t1 + ";")[0]) && !IsWordChar((t2 + ";")[0])
    ensures h1 == h2 && t1 == t2
  {
    assert h1 + (t1 + ";") == (h1 + t1) + ";" && h2 + (t2 + ";") == (h2 + t2) + ";";
    SpanUnique(c => IsWordChar(c), h1, t1 + ";", h2, t2 + ";");
    SplitSameLength(t1, ";", t2, ";");
  }

  lemma PrimitiveTailUnique(a: Attr, b: Attr)
    requires PrimitiveTail(a) == PrimitiveTail(b)
    ensures a.w == b.w && a.b == b.b
  {
    assert '_' in PrimitiveTail(a) <==> a.b;
    assert '_' in PrimitiveTail(b) <==> b.b;
    assert 'M' in PrimitiveTail(a) <==> a.w;
    assert 'M' in PrimitiveTail(b) <==> b.w;
  }

  lemma LeafUnique(s: Ty, t: Ty)
    requires Nameable(s) && Nameable(t) && s.Atom? && t.Atom? && Mangled(s) == Mangled(t)
    ensures s == t
  {
    LeafMangled(s);
    LeafMangled(t);
    LeafTailPlain(s);
    LeafTailPlain(t);
    HeadUnique(LeafHead(s), LeafTail(s), LeafHead(t), LeafTail(t));
    LeafPartsUnique(s, t);
  }

  lemma LeafPartsUnique(s: Ty, t: Ty)
    requires Nameable(s) && Nameable(t) && s.Atom? && t.Atom?
    requires LeafHead(s) == LeafHead(t) && LeafTail(s) == LeafTail(t)
    ensures s == t
  {
    if s.leaf.Primitive? {
      PrimitiveIsNoHead(s.leaf.name);
    }
    if t.leaf.Primitive? {
      PrimitiveIsNoHead(t.leaf.name);
    }
    if s.leaf.Primitive? && t.leaf.Primitive? {
      PrimitivesUnique(s, t);
    }
  }

  lemma PrimitivesUnique(s: Ty, t: Ty)
    requires Nameable(s) && Nameable(t) && s.Atom? && t.Atom? && s.leaf.Primitive? && t.leaf.Primitive?
    requires LeafHead(s) == LeafHead(t) && LeafTail(s) == LeafTail(t)
    ensures s == t
  {
    PrimitiveIsNoHead(s.leaf.name);
    PrimitiveIsNoHead(t.leaf.name);
    if s.a.c {
      PrimitiveWord(s.leaf.name);
      PrimitiveWord(t.leaf.name);
      SplitSameLength("_", s.leaf.name + PrimitiveTail(s.a), "_", t.leaf.name + PrimitiveTail(t.a));
      HeadUnique(s.leaf.name, PrimitiveTail(s.a), t.leaf.name, PrimitiveTail(t.a));
    }
    PrimitiveTailUnique(s.a, t.a);
  }

  // ---------------------------------------------------------------- first characters

  /** The letter of a node with parts, or of a nominal shape. */
  function Initial(t: Ty): char
    requires !t.Atom?
  {
    match t
    case Wrap(_, wrapper, _) => WrapperLetter(wrapper)[0]
    case Array(_, _, _, _) => 'A'
    case Callable(_, form, _, _, _) => if form.PlainFn? then 'F' else 'D'
    case Shape(_, _, _, _, _) => 'N'
  }

  predicate AfterInitial(c: char) {
    IsLetter(c) || IsDigit(c)
  }

  lemma LettersThenBox(a: Attr, value: string, rest: string)
    ensures var s := Letters(a) + (Boxed(value) + rest); s != "" && AfterInitial(s[0])
  {
    LettersPlain(a);
  }

  predicate NodeStart(s: string) {
    |s| > 1 && 'A' <= s[0] <= 'Z' && (s[0] == 'A' || s[0] == 'O' ==> AfterInitial(s[1]))
  }

  lemma StartsDiffer(s: string)
    ensures !(NodeStart(s) && LeafStart(s))
  {
  }

  lemma NodeBegins(t: Ty)
    requires Nameable(t) && !t.Atom?
    ensures NodeStart(Mangled(t)) && Mangled(t)[0] == Initial(t)
  {
    match t
    case Wrap(_, _, _) => WrapBegins(t);
    case Array(_, _, _, _) => ArrayBegins(t);
    case Callable(_, _, _, _, _) =>
    case Shape(_, _, _, _, _) => NominalMangled(t);
  }

  lemma WrapBegins(t: Ty)
    requires t.Wrap?
    ensures NodeStart(Mangled(t)) && Mangled(t)[0] == Initial(t)
  {
    var box := Boxed(Mangled(t.inner));
    LettersThenBox(t.a, Mangled(t.inner), "");
    assert box + "" == box;
    LetterBegins(WrapperLetter(t.wrapper), Letters(t.a) + box);
  }

  lemma ArrayBegins(t: Ty)
    requires t.Array?
    ensures NodeStart(Mangled(t)) && Mangled(t)[0] == Initial(t)
  {
    LettersThenBox(t.a, Id.Extent(t.size, t.extent), Boxed(Mangled(t.elem)));
    LetterBegins("A", Letters(t.a) + (Boxed(Id.Extent(t.size, t.extent)) + Boxed(Mangled(t.elem))));
  }

  lemma LetterBegins(letter: string, rest: string)
    requires |letter| == 1 && 'A' <= letter[0] <= 'Z' && rest != "" && AfterInitial(rest[0])
    ensures NodeStart(letter + rest) && (letter + rest)[0] == letter[0]
  {
    assert (letter + rest)[1] == rest[0];
  }

  predicate LeafStart(s: string) {
    |s| > 1 && (s[0] == '_' || 'a' <= s[0] <= 'z' || (s[0] == 'A' && s[1] == 'd') || (s[0] == 'O' && s[1] == 'A'))
  }

  lemma PrimitiveStart(name: string, tail: string)
    requires IsPrimitiveName(name)
    ensures LeafStart(name + tail)
  {
    assert name[0] == (name + tail)[0] && name[1] == (name + tail)[1];
  }

  lemma LeafBegins(t: Ty)
    requires Nameable(t) && t.Atom?
    ensures LeafStart(Mangled(t))
  {
    LeafMangled(t);
    LeafPartsBegin(t);
  }

  lemma LeafPartsBegin(t: Ty)
    requires Nameable(t) && t.Atom?
    ensures LeafStart(LeafHead(t) + LeafTail(t))
  {
    if t.leaf.Primitive? && !t.a.c {
      PrimitiveStart(t.leaf.name, LeafTail(t));
    }
  }

  /** A leaf never shares its name with a node that has parts. */
  lemma LeafIsNoNode(s: Ty, t: Ty)
    requires Nameable(s) && Nameable(t) && s.Atom? && !t.Atom?
    ensures Mangled(s) != Mangled(t)
  {
    LeafBegins(s);
    NodeBegins(t);
    StartsDiffer(Mangled(s));
  }

  // ---------------------------------------------------------------- nodes

  lemma WrapUnique(s: Ty, t: Ty)
    requires s.Wrap? && t.Wrap? && s.wrapper == t.wrapper && Mangled(s) == Mangled(t)
    ensures s.a == t.a && Mangled(s.inner) == Mangled(t.inner)
  {
    SplitSameLength(WrapperLetter(s.wrapper), Letters(s.a) + Boxed(Mangled(s.inner)),
                    WrapperLetter(t.wrapper), Letters(t.a) + Boxed(Mangled(t.inner)));
    LettersUnique(s.a, Boxed(Mangled(s.inner)), t.a, Boxed(Mangled(t.inner)));
    assert Boxed(Mangled(s.inner)) + "" == Boxed(Mangled(s.inner));
    assert Boxed(Mangled(t.inner)) + "" == Boxed(Mangled(t.inner));
    BoxedUnique(Mangled(s.inner), "", Mangled(t.inner), "");
  }

  lemma ArrayUnique(s: Ty, t: Ty)
    requires s.Array? && t.Array? && Mangled(s) == Mangled(t)
    requires ExtentOk(s.size, s.extent) && ExtentOk(t.size, t.extent)
    ensures s.a == t.a && s.size == t.size && s.extent == t.extent && Mangled(s.elem) == Mangled(t.elem)
  {
    var e1, e2 := Id.Extent(s.size, s.extent), Id.Extent(t.size, t.extent);
    var b1, b2 := Boxed(Mangled(s.elem)), Boxed(Mangled(t.elem));
    SplitSameLength("A", Letters(s.a) + (Boxed(e1) + b1), "A", Letters(t.a) + (Boxed(e2) + b2));
    LettersUnique(s.a, Boxed(e1) + b1, t.a, Boxed(e2) + b2);
    BoxedUnique(e1, b1, e2, b2);
    assert b1 + "" == b1 && b2 + "" == b2;
    BoxedUnique(Mangled(s.elem), "", Mangled(t.elem), "");
    ExtentUnique(s.size, s.extent, t.size, t.extent);
  }

  lemma ExtentUnique(size1: nat, extent1: string, size2: nat, extent2: string)
    requires ExtentOk(size1, extent1) && ExtentOk(size2, extent2)
    requires Id.Extent(size1, extent1) == Id.Extent(size2, extent2)
    ensures size1 == size2 && extent1 == extent2
  {
    DecimalRoundTrip(size1);
    DecimalRoundTrip(size2);
  }

  lemma CallHeadUnique(form1: CallForm, mode1: Receiver, rest1: string, form2: CallForm, mode2: Receiver, rest2: string)
    requires form1.PlainFn? == form2.PlainFn?
    requires CallHead(form1, mode1) + rest1 == CallHead(form2, mode2) + rest2
    ensures form1 == form2 && mode1 == mode2 && rest1 == rest2
  {
    assert |Decimal(Id.ReceiverCode(mode1))| == 1 && |Decimal(Id.ReceiverCode(mode2))| == 1;
    SplitSameLength(CallHead(form1, mode1), rest1, CallHead(form2, mode2), rest2);
    var h1, h2 := CallHead(form1, mode1), CallHead(form2, mode2);
    assert h1[0] == h2[0];
    assert form1.PlainFn? ==> h1[2] == h2[2];
  }

  lemma CallableUnique(s: Ty, t: Ty)
    requires s.Callable? && t.Callable? && s.form.PlainFn? == t.form.PlainFn? && Mangled(s) == Mangled(t)
    ensures s.a == t.a && s.form == t.form && s.mode == t.mode
    ensures MangledAll(s.params) == MangledAll(t.params) && Mangled(s.ret) == Mangled(t.ret)
  {
    var v1, v2 := MangledAll(s.params) + [Mangled(s.ret)], MangledAll(t.params) + [Mangled(t.ret)];
    var c1, c2 := CallHead(s.form, s.mode) + BoxedAll(v1), CallHead(t.form, t.mode) + BoxedAll(v2);
    var letter := if s.form.PlainFn? then "F" else "D";
    SplitSameLength(letter, Letters(s.a) + c1, letter, Letters(t.a) + c2);
    LettersUnique(s.a, c1, t.a, c2);
    CallHeadUnique(s.form, s.mode, BoxedAll(v1), t.form, t.mode, BoxedAll(v2));
    BoxedAllUnique(v1, v2);
    assert v1[..|v1| - 1] == MangledAll(s.params) && v2[..|v2| - 1] == MangledAll(t.params);
  }

  lemma ShapeUnique(s: Ty, t: Ty)
    requires s.Shape? && t.Shape? && Nameable(s) && Nameable(t) && Mangled(s) == Mangled(t)
    ensures s.a == t.a && s.decl.nominal == t.decl.nominal && s.variant == t.variant
  {
    var h1, h2 := Hex(s.decl.nominal.value), Hex(t.decl.nominal.value);
    var r1, r2 := StableTail(s.a, s.variant), StableTail(t.a, t.variant);
    NominalMangled(s);
    NominalMangled(t);
    SplitSameLength("N", h1 + r1, "N", h2 + r2);
    SpanUnique(c => IsHexDigit(c), h1, r1, h2, r2);
    HexInjective(s.decl.nominal.value, t.decl.nominal.value);
    StableTailUnique(s.a, s.variant, t.a, t.variant);
  }

  lemma NominalMangled(t: Ty)
    requires t.Shape? && Nameable(t)
    ensures Mangled(t) == "N" + (Hex(t.decl.nominal.value) + StableTail(t.a, t.variant))
  {
    var text := ShapeBase(t);
    assert text + "" == text;
    Regroup("N", Hex(t.decl.nominal.value), StableTail(t.a, t.variant));
  }

  lemma StableTailUnique(a: Attr, v: string, b: Attr, w: string)
    requires IsBytes(v) && IsBytes(w) && !a.n && !b.n && StableTail(a, v) == StableTail(b, w)
    ensures a == b && v == w
  {
    assert a.(n := false) == a && b.(n := false) == b;
    SplitSameLength("_A", Letters(a) + VariantText(v), "_A", Letters(b) + VariantText(w));
    LettersThenText(a, VariantText(v), b, VariantText(w));
    VariantUnique(v, w);
  }

  lemma LettersThenText(a: Attr, rest1: string, b: Attr, rest2: string)
    requires Letters(a) + rest1 == Letters(b) + rest2
    requires !IsLetter((rest1 + ";")[0]) && !IsLetter((rest2 + ";")[0])
    ensures a == b && rest1 == rest2
  {
    assert Letters(a) + (rest1 + ";") == (Letters(a) + rest1) + ";";
    assert Letters(b) + (rest2 + ";") == (Letters(b) + rest2) + ";";
    LettersUnique(a, rest1 + ";", b, rest2 + ";");
    SplitSameLength(rest1, ";", rest2, ";");
  }

  lemma VariantUnique(v: string, w: string)
    requires IsBytes(v) && IsBytes(w) && VariantText(v) == VariantText(w)
    ensures v == w
  {
    if v != "" && w != "" {
      SplitSameLength("_V", Hex(v), "_V", Hex(w));
      HexInjective(v, w);
    }
  }

  // ---------------------------------------------------------------- names decide equality

  lemma InitialDecides(s: Ty, t: Ty)
    requires !s.Atom? && !t.Atom? && Initial(s) == Initial(t)
    ensures Kind(s) == Kind(t)
  {
  }

  /** Two nameable types share a mangled name exactly when they are semantically equal. */
  lemma {:induction false} MangledIffEquals(s: Ty, t: Ty)
    requires Nameable(s) && Nameable(t)
    ensures Mangled(s) == Mangled(t) <==> Id.Equals(s, t)
    decreases s, 1
  {
    if Kind(s) == Kind(t) {
      match s {
        case Atom(_, _) => LeafCase(s, t);
        case Wrap(_, _, _) => WrapCase(s, t);
        case Array(_, _, _, _) => ArrayCase(s, t);
        case Callable(_, _, _, _, _) => CallableCase(s, t);
        case Shape(_, _, _, _, _) => ShapeCase(s, t);
      }
    } else {
      DifferentKinds(s, t);
    }
  }

  lemma DifferentKinds(s: Ty, t: Ty)
    requires Nameable(s) && Nameable(t) && Kind(s) != Kind(t)
    ensures Mangled(s) != Mangled(t)
  {
    if s.Atom? && t.Atom? {
      if Mangled(s) == Mangled(t) {
        LeafUnique(s, t);
      }
    } else if s.Atom? {
      LeafIsNoNode(s, t);
    } else if t.Atom? {
      LeafIsNoNode(t, s);
    } else {
      NodeBegins(s);
      NodeBegins(t);
      if Initial(s) == Initial(t) {
        InitialDecides(s, t);
      }
    }
  }

  lemma LeafCase(s: Ty, t: Ty)
    requires Nameable(s) && Nameable(t) && s.Atom? && Kind(s) == Kind(t)
    ensures Mangled(s) == Mangled(t) <==> Id.Equals(s, t)
  {
    SameLeaf(s, t);
    LeavesUnique(s, t);
  }

  lemma LeavesUnique(s: Ty, t: Ty)
    requires Nameable(s) && Nameable(t) && s.Atom? && t.Atom?
    ensures Mangled(s) == Mangled(t) <==> s == t
  {
    if Mangled(s) == Mangled(t) {
      LeafUnique(s, t);
    }
  }

  lemma SameLeaf(s: Ty, t: Ty)
    requires s.Atom? && t.Atom? && !s.leaf.Unresolved?
    ensures Id.Equals(s, t) <==> s == t
  {
  }

  lemma {:induction false} WrapCase(s: Ty, t: Ty)
    requires Nameable(s) && Nameable(t) && s.Wrap? && Kind(s) == Kind(t)
    ensures Mangled(s) == Mangled(t) <==> Id.Equals(s, t)
    decreases s, 0
  {
    SameWrapper(s, t);
    MangledIffEquals(s.inner, t.inner);
    WrapMangledIff(s, t);
    WrapEqualsIff(s, t);
  }

  lemma SameWrapper(s: Ty, t: Ty)
    requires s.Wrap? && Kind(s) == Kind(t)
    ensures t.Wrap? && s.wrapper == t.wrapper
  {
  }

  lemma WrapMangledIff(s: Ty, t: Ty)
    requires s.Wrap? && t.Wrap? && s.wrapper == t.wrapper
    ensures Mangled(s) == Mangled(t) <==> s.a == t.a && Mangled(s.inner) == Mangled(t.inner)
  {
    if Mangled(s) == Mangled(t) {
      WrapUnique(s, t);
    }
  }

  lemma WrapEqualsIff(s: Ty, t: Ty)
    requires s.Wrap? && t.Wrap? && s.wrapper == t.wrapper
    ensures Id.Equals(s, t) <==> s.a == t.a && Id.Equals(s.inner, t.inner)
  {
  }

  lemma {:induction false} ArrayCase(s: Ty, t: Ty)
    requires Nameable(s) && Nameable(t) && s.Array? && Kind(s) == Kind(t)
    ensures Mangled(s) == Mangled(t) <==> Id.Equals(s, t)
    decreases s, 0
  {
    MangledIffEquals(s.elem, t.elem);
    if Mangled(s) == Mangled(t) {
      ArrayUnique(s, t);
    }
  }

  lemma {:induction false} CallableCase(s: Ty, t: Ty)
    requires Nameable(s) && Nameable(t) && s.Callable? && Kind(s) == Kind(t)
    ensures Mangled(s) == Mangled(t) <==> Id.Equals(s, t)
    decreases s, 0
  {
    AllMangledIffEqual(s.params, t.params);
    MangledIffEquals(s.ret, t.ret);
    if Mangled(s) == Mangled(t) {
      CallableUnique(s, t);
    }
  }

  lemma ShapeCase(s: Ty, t: Ty)
    requires Nameable(s) && Nameable(t) && s.Shape? && Kind(s) == Kind(t)
    ensures Mangled(s) == Mangled(t) <==> Id.Equals(s, t)
  {
    NominalMangled(s);
    NominalMangled(t);
    if Mangled(s) == Mangled(t) {
      ShapeUnique(s, t);
    } else if Id.Equals(s, t) {
      SplitSameLength("nominal:", s.decl.nominal.value, "nominal:", t.decl.nominal.value);
    }
  }

  lemma {:induction false} AllMangledIffEqual(ss: seq<Ty>, ts: seq<Ty>)
    requires NameableAll(ss) && NameableAll(ts)
    ensures MangledAll(ss) == MangledAll(ts) <==> Id.EqualsAll(ss, ts)
    decreases ss, 0
  {
    if |ss| == |ts| && ss != [] {
      MangledIffEquals(ss[0], ts[0]);
      AllMangledIffEqual(ss[1..], ts[1..]);
      assert MangledAll(ss)[0] == Mangled(ss[0]) && MangledAll(ss)[1..] == MangledAll(ss[1..]);
      assert MangledAll(ts)[0] == Mangled(ts[0]) && MangledAll(ts)[1..] == MangledAll(ts[1..]);
    }
  }
}
