/** The two builders of a binding's physical type: one writes a spelling for the string parser, the
    other wraps the soul type directly. */
module Synthesis {
  import opened Text
  import opened Types
  import opened TypeString
  import opened TypeSyntax
  import opened StringRoundTrip

  /** One declared handle layer; no morphology means no layer at all. */
  datatype Layer = Layer(hat: Option<Wrapper>, rebindable: bool, nullable: bool, blocked: bool)

  datatype Permission = Permission(layers: seq<Layer>, outer: Layer, soulWritable: bool, soulBlocked: bool)

  function LayerAttr(layer: Layer): Attr {
    Attr(layer.rebindable, layer.nullable, layer.blocked, false)
  }

  // ---------------------------------------------------------------- the spelling

  function LayerText(layer: Layer): string {
    (if layer.hat.Some? then HatSigil(layer.hat.value, layer.nullable) else "") + HatMarkText(LayerAttr(layer))
  }

  function LayersText(layers: seq<Layer>): string {
    if layers == [] then "" else LayerText(layers[0]) + LayersText(layers[1..])
  }

  function StripSigils(s: string): string {
    if s != "" && (IsSigil(s[0]) || s[0] == '#' || s[0] == '$') then StripSigils(s[1..]) else s
  }

  /** Type::stripPrefixes. */
  function StripPrefixes(name: string): string {
    StripSigils(if StartsWith(name, "nul ") then name[4..] else name)
  }

  function PhysicalText(p: Permission, soul: string, strip: bool): string {
    (if p.layers != [] then LayersText(p.layers) else LayerText(p.outer)) +
    ((if strip then StripPrefixes(soul) else soul) + (Mark(p.soulBlocked, "$") + Mark(p.soulWritable, "#")))
  }

  lemma {:induction false} LayersAppend(layers: seq<Layer>, layer: Layer)
    ensures LayersText(layers + [layer]) == LayersText(layers) + LayerText(layer)
  {
    if layers == [] {
      assert LayersText([layer]) == LayerText(layer) + LayersText([]);
    } else {
      assert (layers + [layer])[1..] == layers[1..] + [layer];
      LayersAppend(layers[1..], layer);
    }
  }

  method SpellLayers(layers: seq<Layer>) returns (signature: string)
    ensures signature == LayersText(layers)
  {
    signature := "";
    for i := 0 to |layers|
      invariant signature == LayersText(layers[..i])
    {
      assert layers[..i + 1] == layers[..i] + [layers[i]];
      LayersAppend(layers[..i], layers[i]);
      signature := signature + LayerText(layers[i]);
    }
    assert layers[..|layers|] == layers;
  }

  method SynthesizePhysicalType(p: Permission, soul: string, strip: bool) returns (signature: string)
    ensures signature == PhysicalText(p, soul, strip)
  {
    if p.layers != [] {
      signature := SpellLayers(p.layers);
    } else {
      signature := LayerText(p.outer);
    }
    var marks := "";
    if p.soulBlocked {
      marks := marks + "$";
    }
    if p.soulWritable {
      marks := marks + "#";
    }
    signature := signature + ((if strip then StripPrefixes(soul) else soul) + marks);
  }

  // ---------------------------------------------------------------- the object

  /** Prefix morphology at the head of a soul annotation is declared on the binding instead. */
  function PeelSyntax(s: Syntax): Syntax {
    if s.Morphology? && !s.postfix && s.text != "" &&
       (s.text == "nul" || IsSigil(s.text[0]) || s.text == "#" || s.text == "$")
    then PeelSyntax(s.subject) else s
  }

  function SoulType(p: Permission, syntax: Option<Syntax>, legacy: string, strip: bool): Ty {
    var soul := match syntax
      case Some(s) => FromSyntax(if strip then PeelSyntax(s) else s)
      case None => FromString(legacy);
    var marked := WithAttributes(soul, soul.a.w || p.soulWritable, soul.a.n, soul.a.b || p.soulBlocked);
    if !IsPointer(marked) then marked
    else
      var written := if p.soulWritable then
          marked.(inner := WithAttributes(marked.inner, true, marked.inner.a.n, marked.inner.a.b)) else marked;
      if !p.soulBlocked then written
      else written.(inner := WithAttributes(written.inner, false, written.inner.a.n, true))
  }

  function WrapLayer(layer: Layer, t: Ty): Ty {
    if layer.hat.Some? then Wrap(LayerAttr(layer), layer.hat.value, t) else t
  }

  function WrapLayers(layers: seq<Layer>, t: Ty): Ty {
    if layers == [] then t else WrapLayer(layers[0], WrapLayers(layers[1..], t))
  }

  /** Without a layer list the one declared morphology is used; an inferred soul that already is such
      a handle is re-marked instead of being wrapped again. */
  function PhysicalObject(p: Permission, syntax: Option<Syntax>, legacy: string, strip: bool): Ty {
    var soul := SoulType(p, syntax, legacy, strip);
    if p.layers != [] then WrapLayers(p.layers, soul)
    else if p.outer.hat.None? then soul
    else if syntax.None? && soul.Wrap? && soul.wrapper == p.outer.hat.value then
      SetAttr(soul, LayerAttr(p.outer).(c := soul.a.c))
    else WrapLayer(p.outer, soul)
  }

  method SynthesizePhysicalTypeObject(p: Permission, syntax: Option<Syntax>, legacy: string, strip: bool)
    returns (t: Ty)
    ensures t == PhysicalObject(p, syntax, legacy, strip)
  {
    var soulSyntax := syntax;
    if strip && syntax.Some? {
      var s := syntax.value;
      while s.Morphology? && !s.postfix && s.text != "" &&
            (s.text == "nul" || IsSigil(s.text[0]) || s.text == "#" || s.text == "$")
        invariant PeelSyntax(s) == PeelSyntax(syntax.value)
        decreases s
      {
        s := s.subject;
      }
      soulSyntax := Some(s);
    }
    t := SoulType(p, soulSyntax, legacy, false);
    assert t == SoulType(p, syntax, legacy, strip);
    ghost var soul := t;
    if p.layers != [] {
      var i := |p.layers|;
      while i > 0
        invariant 0 <= i <= |p.layers|
        invariant t == WrapLayers(p.layers[i..], soul)
      {
        i := i - 1;
        assert p.layers[i..][1..] == p.layers[i + 1..];
        t := WrapLayer(p.layers[i], t);
      }
      assert p.layers[0..] == p.layers;
    } else if p.outer.hat.Some? {
      if syntax.None? && t.Wrap? && t.wrapper == p.outer.hat.value {
        t := SetAttr(t, LayerAttr(p.outer).(c := t.a.c));
      } else {
        t := WrapLayer(p.outer, t);
      }
    }
  }

  // ---------------------------------------------------------------- agreement

  /** A layer names a handle, and only a raw pointer may be zero. */
  predicate LayerOk(layer: Layer) {
    layer.hat.Some? && IsHandle(layer.hat.value) && (layer.nullable ==> layer.hat.value.Raw?)
  }

  predicate LayersOk(layers: seq<Layer>) {
    forall i | 0 <= i < |layers| :: LayerOk(layers[i])
  }

  /** The layers that both builders read: the list, or else the one declared morphology. */
  function Hats(p: Permission): seq<Layer> {
    if p.layers != [] then p.layers else if p.outer.hat.Some? then [p.outer] else []
  }

  predicate PermissionOk(p: Permission) {
    LayersOk(Hats(p))
  }

  /** Without any handle, identity marks are written in front of the soul. */
  function StrayMarks(p: Permission): string {
    if Hats(p) == [] then HatMarkText(LayerAttr(p.outer)) else ""
  }

  /** What the parser makes of a bare name under marks. */
  function NameType(name: string, a: Attr): Ty {
    if name == "never" then Atom(PLAIN, Never)
    else if name == "void" then Atom(PLAIN, Void)
    else if name == "unknown" then Atom(PLAIN, Unresolved(name))
    else if IsPrimitiveName(name) then Atom(a, Primitive(name))
    else Shape(a, name, [], "", NoDecl)
  }

  lemma WordRead(name: string, a: Attr)
    requires name == "never" || name == "void" || name == "unknown"
    ensures FromRest(name, a) == NameType(name, a)
  {
    NameTight(name);
    assert FromRest(name, a) == FromName(name, a);
    if name == "unknown" {
      TightHasNoBlankEnds(name);
      assert FromName(name, a) == FromShape(name, a.(n := false));
    }
  }

  lemma NameRead(name: string, a: Attr)
    requires NameOk(name) && !a.n
    ensures FromRest(name, a) == NameType(name, a)
  {
    if IsPrimitiveName(name) {
      ReadPrimitive(name, a);
    } else if Reserved(name) {
      WordRead(name, a);
    } else {
      assert name + "" == name;
      ReadNameText(name, "", a);
    }
  }

  lemma ReadName(name: string, marks: string, raw: string)
    requires NameOk(name) && AllMarks(marks)
    ensures FromTrimmed(name + marks, raw) == NameType(name, Attr('#' in marks, false, '$' in marks, false))
  {
    NameTight(name);
    NameClean(name);
    assert name + "" == name && "" + name == name;
    NameUnkeyed(name, "");
    ReachBody(false, name, marks, raw);
    NameRead(name, Attr('#' in marks, false, '$' in marks, false));
  }

  lemma {:induction false} LayersTight(layers: seq<Layer>, name: string)
    requires LayersOk(layers) && NameOk(name)
    ensures Tight(LayersText(layers) + name) && Clean(LayersText(layers) + name, true)
    ensures layers != [] ==> IsSigil((LayersText(layers) + name)[0])
  {
    NameTight(name);
    NameClean(name);
    if layers == [] {
      assert "" + name == name;
    } else {
      var rest := LayersText(layers[1..]) + name;
      LayersTight(layers[1..], name);
      assert LayersText(layers) + name == LayerText(layers[0]) + rest;
      LayerClean(layers[0]);
      CleanConcat(LayerText(layers[0]), rest, true);
      PrefixKeepsEnds(LayerText(layers[0]), rest);
    }
  }

  lemma LayerClean(layer: Layer)
    requires LayerOk(layer)
    ensures Clean(LayerText(layer), true) && LayerText(layer) != "" && IsSigil(LayerText(layer)[0])
  {
  }

  lemma {:induction false} SoulReached(layers: seq<Layer>, soul: Ty, w: bool, b: bool)
    requires LayersOk(layers) && !IsPointer(soul)
    ensures ApplySoul(WrapLayers(layers, soul), w, b) == WrapLayers(layers, WithAttributes(soul, w, false, b))
  {
    if layers != [] {
      SoulReached(layers[1..], soul, w, b);
    }
  }

  /** One layer in front of a chain's text is read on its own level; marks behind go to the soul. */
  lemma ReadLayer(layer: Layer, rest: string, marks: string, raw: string)
    requires LayerOk(layer) && Tight(rest) && Clean(rest, true) && AllMarks(marks)
    ensures FromTrimmed(LayerText(layer) + rest + marks, raw)
         == Wrap(LayerAttr(layer), layer.hat.value, Behind(FromString(rest), marks))
  {
    var text := LayerText(layer) + rest;
    LayerFits(layer, rest);
    assert "" + text == text;
    ReachBody(false, text, marks, raw);
    HandleText(layer.hat.value, LayerAttr(layer), rest, Attr('#' in marks, false, '$' in marks, false));
  }

  lemma LayerFits(layer: Layer, rest: string)
    requires LayerOk(layer) && Tight(rest) && Clean(rest, true)
    ensures Tight(LayerText(layer) + rest) && Clean(LayerText(layer) + rest, true) && Unkeyed(LayerText(layer) + rest)
  {
    LayerClean(layer);
    CleanConcat(LayerText(layer), rest, true);
    PrefixKeepsEnds(LayerText(layer), rest);
    SymbolUnkeyed(LayerText(layer) + rest);
  }

  /** What marks behind a pointee's text do to the pointee. */
  function Behind(pointee: Ty, marks: string): Ty {
    if '#' in marks || '$' in marks then ApplySoul(pointee, '#' in marks, '$' in marks) else pointee
  }

  lemma BehindLayers(layers: seq<Layer>, name: string, marks: string)
    requires LayersOk(layers)
    ensures Behind(WrapLayers(layers, NameType(name, PLAIN)), marks)
         == WrapLayers(layers, MarkedSoul(NameType(name, PLAIN), marks))
  {
    SoulReached(layers, NameType(name, PLAIN), '#' in marks, '$' in marks);
    assert WithAttributes(NameType(name, PLAIN), false, false, false) == NameType(name, PLAIN);
  }

  function MarkedSoul(soul: Ty, marks: string): Ty {
    WithAttributes(soul, '#' in marks, false, '$' in marks)
  }

  /** Every layer is read back on its own level, and marks behind the chain go to the soul. */
  lemma {:induction false} ReadLayers(layers: seq<Layer>, name: string, marks: string, raw: string)
    requires LayersOk(layers) && layers != [] && NameOk(name) && AllMarks(marks)
    ensures FromTrimmed(LayersText(layers) + name + marks, raw)
         == WrapLayers(layers, MarkedSoul(NameType(name, PLAIN), marks))
    decreases |layers|, 0
  {
    var rest := LayersText(layers[1..]) + name;
    assert LayersText(layers) + name == LayerText(layers[0]) + rest;
    LayersTight(layers[1..], name);
    ReadLayer(layers[0], rest, marks, raw);
    RestRead(layers[1..], name);
    BehindLayers(layers[1..], name, marks);
  }

  lemma {:induction false} RestRead(layers: seq<Layer>, name: string)
    requires LayersOk(layers) && NameOk(name)
    ensures FromString(LayersText(layers) + name) == WrapLayers(layers, NameType(name, PLAIN))
    decreases |layers|, 1
  {
    var text := LayersText(layers) + name;
    LayersTight(layers, name);
    TrimTight(text);
    assert text + "" == text;
    if layers == [] {
      ReadName(name, "", name);
      assert "" + name == name && name + "" == name;
    } else {
      ReadLayers(layers, name, "", text);
      NothingMarked(name);
    }
  }

  lemma NothingMarked(name: string)
    ensures MarkedSoul(NameType(name, PLAIN), "") == NameType(name, PLAIN)
  {
  }

  function SoulMarkText(p: Permission): string {
    Mark(p.soulBlocked, "$") + Mark(p.soulWritable, "#")
  }

  function SoulMarks(p: Permission): Attr {
    Attr(p.soulWritable, false, p.soulBlocked, false)
  }

  /** The type that the written spelling stands for: stray marks become part of the name. */
  function TextType(p: Permission, name: string): Ty {
    if Hats(p) != [] then
      WrapLayers(Hats(p), WithAttributes(NameType(name, PLAIN), p.soulWritable, false, p.soulBlocked))
    else if StrayMarks(p) == "" then NameType(name, SoulMarks(p))
    else Shape(SoulMarks(p), StrayMarks(p) + name, [], "", NoDecl)
  }

  lemma TextMeans(p: Permission, name: string, strip: bool)
    requires PermissionOk(p) && NameOk(name)
    ensures FromString(PhysicalText(p, name, strip)) == TextType(p, name)
  {
    SoulMarksAre(p);
    if StrayMarks(p) == "" {
      LayersSpelled(p, name, strip);
      ReadPhysical(Hats(p), name, SoulMarkText(p));
      LayersMeant(p, name, SoulMarkText(p));
    } else {
      StraySpelled(p, name, strip);
      ReadStray(StrayMarks(p), name, SoulMarkText(p));
      StrayMeant(p, name, SoulMarkText(p));
    }
  }

  lemma LayersSpelled(p: Permission, name: string, strip: bool)
    requires NameOk(name) && StrayMarks(p) == ""
    ensures PhysicalText(p, name, strip) == LayersText(Hats(p)) + name + SoulMarkText(p)
  {
    Spelling(p, name, strip);
  }

  lemma StraySpelled(p: Permission, name: string, strip: bool)
    requires NameOk(name) && StrayMarks(p) != ""
    ensures PhysicalText(p, name, strip) == StrayMarks(p) + name + SoulMarkText(p)
  {
    Spelling(p, name, strip);
    assert "" + name == name;
    Regroup(StrayMarks(p), name, SoulMarkText(p));
  }

  lemma LayersMeant(p: Permission, name: string, marks: string)
    requires StrayMarks(p) == "" && ('#' in marks <==> p.soulWritable) && ('$' in marks <==> p.soulBlocked)
    ensures TextType(p, name) ==
      if Hats(p) == [] then NameType(name, Attr('#' in marks, false, '$' in marks, false))
      else WrapLayers(Hats(p), MarkedSoul(NameType(name, PLAIN), marks))
  {
  }

  lemma StrayMeant(p: Permission, name: string, marks: string)
    requires StrayMarks(p) != "" && ('#' in marks <==> p.soulWritable) && ('$' in marks <==> p.soulBlocked)
    ensures TextType(p, name)
         == Shape(Attr('#' in marks, false, '$' in marks, false), StrayMarks(p) + name, [], "", NoDecl)
  {
  }

  lemma Spelling(p: Permission, name: string, strip: bool)
    requires NameOk(name)
    ensures PhysicalText(p, name, strip) == StrayMarks(p) + (LayersText(Hats(p)) + name + SoulMarkText(p))
  {
    NameStripped(name);
    HatsText(p);
    var layers, marks := LayersText(Hats(p)), SoulMarkText(p);
    assert PhysicalText(p, name, strip) == (StrayMarks(p) + layers) + (name + marks);
    Regroup(StrayMarks(p), layers, name + marks);
    Regroup(layers, name, marks);
  }

  /** A name behind stray marks has no keyword, bracket or path in it. */
  predicate StrayName(s: string) {
    && s != "" && (s[0] == '#' || s[0] == '$') && IsNameChar(s[|s| - 1])
    && forall c | c in s :: IsNameChar(c) || c == '#' || c == '$'
  }

  lemma StrayUnkeyed(s: string)
    requires StrayName(s)
    ensures Unkeyed(s) && Clean(s, true)
  {
    assert forall word: string | word != "" && StartsWith(s, word) :: s[0] == word[0];
  }

  lemma StrayNamed(s: string, a: Attr)
    requires StrayName(s) && !a.n
    ensures FromNamed(s, a) == Shape(a, s, [], "", NoDecl)
  {
    NoAngles(s);
    assert forall i | 0 <= i < |s| :: s[i] in s;
    NoPair(s, 0);
    assert s != "Uninit" && s != "__PlaceOutcome";
  }

  lemma StrayShaped(s: string, a: Attr)
    requires StrayName(s) && !a.n
    ensures FromRest(s, a) == Shape(a, s, [], "", NoDecl)
  {
    assert TrimBlanks(s) == s;
    assert !IsPrimitiveName(s) && FromRest(s, a) == FromName(s, a) == FromShape(s, a);
    StrayNamed(s, a);
  }

  lemma StrayTrimmed(s: string, marks: string)
    requires StrayName(s) && AllMarks(marks)
    ensures Trim(s + marks) == s + marks
    ensures StripMarks(StripLifetime(s + marks)) == Marked(s, '#' in marks, false, '$' in marks)
  {
    assert marks != "" ==> marks[|marks| - 1] in marks;
    TrimTight(s + marks);
    StrayUnkeyed(s);
    NoLifetime(s + marks, 0, 0);
    MarksStripped(s, marks);
  }

  lemma ReadStray(stray: string, name: string, marks: string)
    requires stray != "" && AllMarks(stray) && NameOk(name) && AllMarks(marks)
    ensures FromString(stray + name + marks)
         == Shape(Attr('#' in marks, false, '$' in marks, false), stray + name, [], "", NoDecl)
  {
    var s, a := stray + name, Attr('#' in marks, false, '$' in marks, false);
    assert s[0] in stray && s[|s| - 1] == name[|name| - 1] && name[|name| - 1] in name;
    assert StrayName(s);
    StrayTrimmed(s, marks);
    StrayUnkeyed(s);
    assert FromUnmarked(s, a.w, a.b, s + marks) == FromBody(s, a);
    NotCallable(s, a);
    StrayShaped(s, a);
  }

  lemma SoulMarksAre(p: Permission)
    ensures AllMarks(SoulMarkText(p))
    ensures '#' in SoulMarkText(p) <==> p.soulWritable
    ensures '$' in SoulMarkText(p) <==> p.soulBlocked
  {
  }

  lemma MarkedTrimmed(s: string, marks: string)
    requires Tight(s) && AllMarks(marks)
    ensures Trim(s + marks) == s + marks
  {
    assert marks != "" ==> marks[|marks| - 1] in marks;
    TrimTight(s + marks);
  }

  lemma ReadPhysical(layers: seq<Layer>, name: string, marks: string)
    requires LayersOk(layers) && NameOk(name) && AllMarks(marks)
    ensures FromString(LayersText(layers) + name + marks)
         == if layers == [] then NameType(name, Attr('#' in marks, false, '$' in marks, false))
            else WrapLayers(layers, MarkedSoul(NameType(name, PLAIN), marks))
  {
    var text := LayersText(layers) + name + marks;
    LayersTight(layers, name);
    MarkedTrimmed(LayersText(layers) + name, marks);
    if layers == [] {
      assert "" + name + marks == name + marks;
      ReadName(name, marks, text);
    } else {
      ReadLayers(layers, name, marks, text);
    }
  }

  lemma HatsText(p: Permission)
    ensures StrayMarks(p) + LayersText(Hats(p)) == if p.layers != [] then LayersText(p.layers) else LayerText(p.outer)
  {
    if p.layers == [] && p.outer.hat.Some? {
      assert LayersText([p.outer]) == LayerText(p.outer) + LayersText([]);
    }
  }

  lemma NameStripped(name: string)
    requires NameOk(name)
    ensures StripPrefixes(name) == name
  {
    NameHasNoKeyword(name, "");
    assert name + "" == name && name[0] in name;
  }

  lemma NameNotLeaf(name: string)
    requires NameOk(name)
    ensures !IsGeneratedLeaf(name)
  {
    NameHasNoKeyword(name, "");
    assert name + "" == name;
  }

  /** A named soul before its marks, written in the source or inferred. */
  function SoulBase(name: string, written: bool): Ty {
    if written then LowerName(name) else NameType(name, PLAIN)
  }

  lemma NameLowered(name: string)
    requires !IsGeneratedLeaf(name)
    ensures FromSyntax(Name(name, NoDecl)) == LowerName(name)
  {
  }

  lemma SoulParsed(name: string, written: bool)
    requires NameOk(name)
    ensures PeelSyntax(Name(name, NoDecl)) == Name(name, NoDecl)
    ensures written ==> FromSyntax(Name(name, NoDecl)) == LowerName(name)
    ensures !written ==> FromString(name) == NameType(name, PLAIN)
  {
    if written {
      NameNotLeaf(name);
      NameLowered(name);
    } else {
      RestRead([], name);
      assert LayersText([]) + name == name;
    }
  }

  lemma SoulMeans(p: Permission, name: string, written: bool, strip: bool)
    requires NameOk(name)
    ensures SoulType(p, if written then Some(Name(name, NoDecl)) else None, name, strip)
         == WithAttributes(SoulBase(name, written), p.soulWritable, false, p.soulBlocked)
  {
    SoulParsed(name, written);
  }

  /** Where the two builders meet: the word "none" is a primitive only in source syntax, and without
      any handle the spelling cannot drop identity marks or one of two soul marks, nor mark the words
      never, void and unknown at all. */
  predicate BuildersAgree(p: Permission, name: string, written: bool) {
    && (written ==> name != "none")
    && (Hats(p) == [] ==>
          && !p.outer.rebindable && !p.outer.blocked && !(p.soulWritable && p.soulBlocked)
          && (name == "never" || name == "void" || name == "unknown" ==> !p.soulWritable && !p.soulBlocked))
  }

  lemma {:induction false} WrapInjective(layers: seq<Layer>, s: Ty, t: Ty)
    requires LayersOk(layers)
    ensures WrapLayers(layers, s) == WrapLayers(layers, t) <==> s == t
  {
    if layers != [] {
      WrapInjective(layers[1..], s, t);
    }
  }

  lemma ObjectMeans(p: Permission, name: string, written: bool, strip: bool)
    requires PermissionOk(p) && NameOk(name)
    ensures PhysicalObject(p, if written then Some(Name(name, NoDecl)) else None, name, strip)
         == WrapLayers(Hats(p), WithAttributes(SoulBase(name, written), p.soulWritable, false, p.soulBlocked))
  {
    SoulMeans(p, name, written, strip);
    if p.layers == [] && p.outer.hat.Some? {
      var soul := SoulBase(name, written);
      assert !IsPointer(WithAttributes(soul, p.soulWritable, false, p.soulBlocked));
      assert WrapLayers([p.outer], soul) == WrapLayer(p.outer, WrapLayers([], soul));
    }
  }

  lemma SoulsAgree(p: Permission, name: string, written: bool)
    requires NameOk(name)
    ensures WithAttributes(NameType(name, PLAIN), p.soulWritable, false, p.soulBlocked)
         == WithAttributes(SoulBase(name, written), p.soulWritable, false, p.soulBlocked)
       <==> (written ==> name != "none")
  {
  }

  lemma BareSoulsAgree(p: Permission, name: string, written: bool)
    requires NameOk(name) && Hats(p) == []
    ensures TextType(p, name) == WithAttributes(SoulBase(name, written), p.soulWritable, false, p.soulBlocked)
       <==> BuildersAgree(p, name, written)
  {
    if StrayMarks(p) != "" {
      assert |StrayMarks(p) + name| > |name|;
    }
  }

  /** For every permission over a named soul, parsing the written spelling gives the type built
      directly exactly when BuildersAgree holds. */
  lemma SynthesisersAgree(p: Permission, name: string, written: bool, strip: bool)
    requires PermissionOk(p) && NameOk(name)
    ensures FromString(PhysicalText(p, name, strip))
         == PhysicalObject(p, if written then Some(Name(name, NoDecl)) else None, name, strip)
       <==> BuildersAgree(p, name, written)
  {
    TextMeans(p, name, strip);
    ObjectMeans(p, name, written, strip);
    if Hats(p) == [] {
      BareSoulsAgree(p, name, written);
    } else {
      SoulsAgree(p, name, written);
      WrapInjective(Hats(p), WithAttributes(NameType(name, PLAIN), p.soulWritable, false, p.soulBlocked),
                    WithAttributes(SoulBase(name, written), p.soulWritable, false, p.soulBlocked));
    }
  }

  lemma {:induction false} SigilsStripped(marks: string, name: string)
    requires NameOk(name) && forall c | c in marks :: IsSigil(c) || c == '#' || c == '$'
    ensures StripSigils(marks + name) == name
  {
    if marks == "" {
      assert marks + name == name && name[0] in name;
    } else {
      assert marks[0] in marks && forall c | c in marks[1..] :: c in marks;
      assert (marks + name)[1..] == marks[1..] + name;
      SigilsStripped(marks[1..], name);
    }
  }

  lemma HandleStripped(layer: Layer, name: string)
    requires LayerOk(layer) && NameOk(name)
    ensures StripPrefixes(LayerText(layer) + name) == name
  {
    LayerMarks(layer);
    SymbolUnkeyed(LayerText(layer) + name);
    SigilsStripped(LayerText(layer), name);
  }

  lemma LayerMarks(layer: Layer)
    requires LayerOk(layer)
    ensures LayerText(layer) != "" && IsSigil(LayerText(layer)[0])
    ensures forall c | c in LayerText(layer) :: IsSigil(c) || c == '#' || c == '$'
  {
    var sigil := HatSigil(layer.hat.value, layer.nullable);
    assert forall c | c in sigil :: IsSigil(c);
    assert forall c | c in HatMarkText(LayerAttr(layer)) :: c == '#' || c == '$';
  }

  lemma InferredRead(layer: Layer, name: string)
    requires LayerOk(layer) && NameOk(name)
    ensures FromString(LayerText(layer) + name) == Wrap(LayerAttr(layer), layer.hat.value, NameType(name, PLAIN))
  {
    RestRead([layer], name);
    assert [layer][1..] == [];
    assert LayersText([layer]) == LayerText(layer) + "" == LayerText(layer);
    assert WrapLayers([layer], NameType(name, PLAIN)) == WrapLayer(layer, WrapLayers([], NameType(name, PLAIN)));
  }

  /** An inferred soul that is written as the declared handle is not wrapped again: both builders give one
      layer, with the marks of the declaration, over the marked name. */
  lemma InferredHandleAgrees(p: Permission, inferred: Layer, name: string)
    requires p.layers == [] && PermissionOk(p) && p.outer.hat.Some?
    requires LayerOk(inferred) && inferred.hat == p.outer.hat && NameOk(name)
    ensures var legacy := LayerText(inferred) + name;
      var t := WrapLayer(p.outer, WithAttributes(NameType(name, PLAIN), p.soulWritable, false, p.soulBlocked));
      PhysicalObject(p, None, legacy, true) == t && FromString(PhysicalText(p, legacy, true)) == t
  {
    HandleStripped(inferred, name);
    NameStripped(name);
    assert PhysicalText(p, LayerText(inferred) + name, true) == PhysicalText(p, name, true);
    TextMeans(p, name, true);
    OneHat(p, WithAttributes(NameType(name, PLAIN), p.soulWritable, false, p.soulBlocked));
    InferredRead(inferred, name);
    InferredObject(p, inferred, name, LayerText(inferred) + name);
  }

  lemma OneHat(p: Permission, t: Ty)
    requires p.layers == [] && p.outer.hat.Some?
    ensures Hats(p) != [] && WrapLayers(Hats(p), t) == WrapLayer(p.outer, t)
  {
    assert Hats(p)[1..] == [];
    assert WrapLayers(Hats(p), t) == WrapLayer(p.outer, WrapLayers([], t));
  }

  lemma InferredObject(p: Permission, inferred: Layer, name: string, legacy: string)
    requires p.layers == [] && p.outer.hat.Some? && LayerOk(inferred) && inferred.hat == p.outer.hat
    requires FromString(legacy) == Wrap(LayerAttr(inferred), inferred.hat.value, NameType(name, PLAIN))
    ensures PhysicalObject(p, None, legacy, true)
         == WrapLayer(p.outer, WithAttributes(NameType(name, PLAIN), p.soulWritable, false, p.soulBlocked))
  {
    InferredSoul(p, inferred, name, legacy);
  }

  lemma InferredSoul(p: Permission, inferred: Layer, name: string, legacy: string)
    requires LayerOk(inferred)
    requires FromString(legacy) == Wrap(LayerAttr(inferred), inferred.hat.value, NameType(name, PLAIN))
    ensures var soul := SoulType(p, None, legacy, true);
      && soul.Wrap? && soul.wrapper == inferred.hat.value && !soul.a.c
      && soul.inner == WithAttributes(NameType(name, PLAIN), p.soulWritable, false, p.soulBlocked)
  {
  }
}
