/** Reading back what the printer wrote. */
module StringRoundTrip {
  import opened Text
  import opened Types
  import opened TypeString

  // ---------------------------------------------------------------- the printable types

  predicate IsNameChar(c: char) {
    IsDigit(c) || 'a' <= c <= 'z' || 'A' <= c <= 'Z' || c == '_'
  }

  predicate NameOk(s: string) {
    s != "" && forall c | c in s :: IsNameChar(c)
  }

  /** Nothing, or a path such as "::Some". */
  predicate VariantOk(s: string) {
    s == "" || (StartsWith(s, "::") && forall c | c in s :: IsNameChar(c) || c == ':')
  }

  predicate SoulAttr(a: Attr) {
    !a.n && !(a.w && a.b)
  }

  predicate Reserved(name: string) {
    name == "never" || name == "void" || name == "unknown" || IsPrimitiveName(name)
  }

  predicate NoArray(t: Ty)
    decreases t, 1
  {
    match t
    case Atom(_, _) => true
    case Wrap(_, _, inner) => NoArray(inner)
    case Array(_, _, _, _) => false
    case Shape(_, _, args, _, _) => NoArrays(args)
    case Callable(_, _, params, ret, _) => NoArrays(params) && NoArray(ret)
  }

  predicate NoArrays(ts: seq<Ty>)
    decreases ts, 0
  {
    ts != [] ==> NoArray(ts[0]) && NoArrays(ts[1..])
  }

  /** No array stands inside a slice or inside another array. */
  predicate Flat(t: Ty)
    decreases t, 1
  {
    match t
    case Atom(_, _) => true
    case Wrap(_, wrapper, inner) => if wrapper.Slice? then NoArray(inner) else Flat(inner)
    case Array(_, elem, _, _) => NoArray(elem)
    case Shape(_, _, args, _, _) => FlatAll(args)
    case Callable(_, _, params, ret, _) => FlatAll(params) && Flat(ret)
  }

  predicate FlatAll(ts: seq<Ty>)
    decreases ts, 0
  {
    ts != [] ==> Flat(ts[0]) && FlatAll(ts[1..])
  }

  /** Handle chains of any depth over primitives, named and generic shapes, slices, arrays and the two
      wrappers that print as generics. A symbolic length is no number to std::stoull, and a bare name is
      not a word the parser knows otherwise. */
  predicate Printable(t: Ty)
    decreases t, 1
  {
    match t
    case Atom(a, leaf) =>
      if leaf.Primitive? then IsPrimitiveName(leaf.name) && SoulAttr(a) else a == PLAIN && !leaf.Unresolved?
    case Wrap(a, wrapper, inner) =>
      && Printable(inner)
      && if IsHandle(wrapper) then a.n ==> wrapper.Raw?
         else if wrapper.Slice? || wrapper.Uninit? then SoulAttr(a)
         else wrapper.Place? && a == PLAIN
    case Array(a, elem, size, extent) =>
      && Printable(elem) && SoulAttr(a) && size < LIMIT64
      && (extent != "" ==> size == 0 && NameOk(extent) && ParseUInt64(extent).None?)
    case Shape(a, name, args, variant, decl) =>
      && SoulAttr(a) && decl.NoDecl? && NameOk(name) && VariantOk(variant) && PrintableAll(args)
      && (args == [] && variant == "" ==> !Reserved(name))
      && (|args| == 1 ==> name != "Uninit" && name != "__PlaceOutcome")
    case Callable(_, _, _, _, _) => false
  }

  predicate PrintableAll(ts: seq<Ty>)
    decreases ts, 0
  {
    ts != [] ==> Printable(ts[0]) && PrintableAll(ts[1..])
  }

  lemma {:induction false} FlatAt(ts: seq<Ty>, i: nat)
    requires FlatAll(ts) && i < |ts|
    ensures Flat(ts[i])
  {
    if i > 0 {
      FlatAt(ts[1..], i - 1);
    }
  }

  lemma {:induction false} NoArrayIsFlat(t: Ty)
    requires NoArray(t)
    ensures Flat(t)
    decreases t, 1
  {
    match t
    case Atom(_, _) =>
    case Wrap(_, _, inner) => NoArrayIsFlat(inner);
    case Shape(_, _, args, _, _) => NoArraysAreFlat(args);
    case Callable(_, _, params, ret, _) =>
      NoArraysAreFlat(params);
      NoArrayIsFlat(ret);
  }

  lemma {:induction false} NoArraysAreFlat(ts: seq<Ty>)
    requires NoArrays(ts)
    ensures FlatAll(ts)
    decreases ts, 0
  {
    if ts != [] {
      NoArrayIsFlat(ts[0]);
      NoArraysAreFlat(ts[1..]);
    }
  }

  lemma {:induction false} PrintableAt(ts: seq<Ty>, i: nat)
    requires PrintableAll(ts) && i < |ts|
    ensures Printable(ts[i])
  {
    if i > 0 {
      PrintableAt(ts[1..], i - 1);
    }
  }

  // ---------------------------------------------------------------- the alphabet of printed types

  /** No lifetime arrow, no outcome bar and, when flat, no array length. */
  predicate Clean(s: string, flat: bool) {
    '-' !in s && '|' !in s && (flat ==> ';' !in s)
  }

  lemma CleanConcat(s: string, t: string, flat: bool)
    ensures Clean(s, flat) && Clean(t, flat) ==> Clean(s + t, flat)
  {
  }

  lemma NameClean(s: string)
    requires forall c | c in s :: IsNameChar(c) || c == ':'
    ensures Clean(s, true) && '<' !in s && '>' !in s && ',' !in s
  {
  }

  lemma DecimalClean(n: nat)
    ensures forall c | c in Decimal(n) :: IsNameChar(c)
  {
    assert forall c | c in Decimal(n) :: IsDigit(c);
  }

  lemma ReservedIsName(name: string)
    requires Reserved(name)
    ensures NameOk(name)
  {
  }

  lemma HatClean(a: Attr, w: Wrapper)
    ensures Clean(HatText(a, w), true)
  {
    assert Clean(Mark(a.c, "cede "), true) && Clean(HatSigil(w, a.n), true) && Clean(HatMarkText(a), true);
    CleanConcat(HatSigil(w, a.n), HatMarkText(a), true);
    CleanConcat(Mark(a.c, "cede "), HatSigil(w, a.n) + HatMarkText(a), true);
  }

  lemma TailClean(t: Ty)
    ensures Clean(TailMarks(t), true) && Clean(Mark(SaysCede(t), "cede "), true)
  {
    assert Clean("$", true) && Clean("#", true) && Clean("", true);
  }

  lemma {:induction false} TextClean(t: Ty)
    requires Printable(t)
    ensures Clean(ToString(t), NoArray(t))
    decreases t, 2
  {
    if IsPointer(t) {
      HatClean(t.a, t.wrapper);
      TextClean(t.inner);
      CleanConcat(HatText(t.a, t.wrapper), ToString(t.inner), NoArray(t));
    } else {
      TailClean(t);
      BodyClean(t);
      CleanConcat(Body(t), TailMarks(t), NoArray(t));
      CleanConcat(Mark(SaysCede(t), "cede "), Body(t) + TailMarks(t), NoArray(t));
    }
  }

  lemma {:induction false} BodyClean(t: Ty)
    requires Printable(t) && !IsPointer(t)
    ensures Clean(Body(t), NoArray(t))
    decreases t, 1
  {
    match t
    case Atom(_, leaf) =>
      if leaf.Primitive? {
        ReservedIsName(leaf.name);
        NameClean(leaf.name);
      }
    case Wrap(_, wrapper, inner) =>
      TextClean(inner);
      WrapClean(wrapper, ToString(inner), NoArray(inner));
    case Array(_, elem, size, extent) =>
      TextClean(elem);
      DecimalClean(size);
      ArrayClean(ToString(elem), if extent == "" then Decimal(size) else extent);
    case Shape(_, name, args, variant, _) =>
      NameClean(name);
      NameClean(variant);
      JoinedClean(args);
      GenericClean(name, Joined(args), variant, args == [], NoArrays(args));
  }

  lemma WrapClean(w: Wrapper, inside: string, flat: bool)
    requires Clean(inside, flat)
    ensures Clean("[" + inside + "]", flat) && Clean(GenericName(w) + ("<" + inside + ">"), flat)
  {
    CleanConcat("[", inside, flat);
    CleanConcat("[" + inside, "]", flat);
    CleanConcat("<", inside, flat);
    CleanConcat("<" + inside, ">", flat);
    CleanConcat(GenericName(w), "<" + inside + ">", flat);
  }

  lemma ArrayClean(inside: string, length: string)
    requires Clean(inside, false) && forall c | c in length :: IsNameChar(c)
    ensures Clean("[" + inside + "; " + length + "]", false)
  {
    NameClean(length);
    CleanConcat("[", inside, false);
    CleanConcat("[" + inside, "; ", false);
    CleanConcat("[" + inside + "; ", length, false);
    CleanConcat("[" + inside + "; " + length, "]", false);
  }

  lemma GenericClean(name: string, inside: string, variant: string, bare: bool, flat: bool)
    requires Clean(name, true) && Clean(inside, flat) && Clean(variant, true)
    ensures Clean(name + (if bare then "" else "<" + inside + ">") + variant, flat)
  {
    var middle := if bare then "" else "<" + inside + ">";
    CleanConcat("<", inside, flat);
    CleanConcat("<" + inside, ">", flat);
    CleanConcat(name, middle, flat);
    CleanConcat(name + middle, variant, flat);
  }

  lemma {:induction false} JoinedClean(ts: seq<Ty>)
    requires PrintableAll(ts)
    ensures Clean(Joined(ts), NoArrays(ts))
    decreases ts, 0
  {
    if ts != [] {
      TextClean(ts[0]);
      JoinedClean(ts[1..]);
    }
  }

  // ---------------------------------------------------------------- first and last characters

  predicate FirstOk(c: char) {
    IsSigil(c) || c == '[' || c == '(' || IsNameChar(c)
  }

  predicate LastOk(c: char) {
    IsNameChar(c) || c == ']' || c == ')' || c == ':' || c == '>'
  }

  /** A text that no outer trimming or mark stripping touches. */
  predicate Tight(s: string) {
    s != "" && FirstOk(s[0]) && LastOk(s[|s| - 1])
  }

  predicate SoulBare(t: Ty) {
    if IsPointer(t) then SoulBare(t.inner) else !t.a.w && !t.a.b
  }

  lemma BodyTight(t: Ty)
    requires Printable(t) && !IsPointer(t)
    ensures Tight(Body(t))
  {
    match t
    case Atom(_, leaf) =>
      if leaf.Primitive? {
        ReservedIsName(leaf.name);
        NameTight(leaf.name);
      }
    case Wrap(_, wrapper, inner) =>
    case Array(_, elem, size, extent) =>
    case Shape(_, name, args, variant, _) =>
      NameTight(name);
      GenericTight(name, Joined(args), variant, args == []);
  }

  lemma NameTight(name: string)
    requires NameOk(name)
    ensures Tight(name)
  {
    assert name[0] in name && name[|name| - 1] in name;
  }

  lemma GenericTight(name: string, inside: string, variant: string, bare: bool)
    requires Tight(name) && VariantOk(variant)
    ensures Tight(name + (if bare then "" else "<" + inside + ">") + variant)
  {
    if variant != "" {
      assert variant[|variant| - 1] in variant;
    }
  }

  lemma TailIsMarks(t: Ty)
    requires Printable(t) && !IsPointer(t)
    ensures TailMarks(t) == "" || TailMarks(t) == "#" || TailMarks(t) == "$"
    ensures SoulBare(t) ==> TailMarks(t) == ""
  {
  }

  lemma PrefixKeepsEnds(prefix: string, s: string)
    requires s != "" && (prefix == "" || FirstOk(prefix[0])) && FirstOk(s[0])
    ensures prefix + s != "" && FirstOk((prefix + s)[0]) && (prefix + s)[|prefix + s| - 1] == s[|s| - 1]
  {
  }

  lemma HatBegins(a: Attr, w: Wrapper)
    ensures HatText(a, w) != "" && FirstOk(HatText(a, w)[0])
  {
  }

  lemma {:induction false} TextEnds(t: Ty)
    requires Printable(t)
    ensures ToString(t) != "" && ToString(t)[|ToString(t)| - 1] != ' '
    ensures FirstOk(ToString(t)[0]) && ToString(t)[0] != ' '
    ensures SoulBare(t) ==> LastOk(ToString(t)[|ToString(t)| - 1])
  {
    if IsPointer(t) {
      TextEnds(t.inner);
      HatBegins(t.a, t.wrapper);
      PrefixKeepsEnds(HatText(t.a, t.wrapper), ToString(t.inner));
    } else {
      UnhattedEnds(t);
    }
  }

  lemma UnhattedEnds(t: Ty)
    requires Printable(t) && !IsPointer(t)
    ensures ToString(t) != "" && FirstOk(ToString(t)[0]) && ToString(t)[|ToString(t)| - 1] != ' '
    ensures SoulBare(t) ==> LastOk(ToString(t)[|ToString(t)| - 1])
  {
    BodyTight(t);
    TailIsMarks(t);
    EndsKept(Mark(SaysCede(t), "cede "), Body(t), TailMarks(t));
  }

  lemma EndsKept(prefix: string, body: string, tail: string)
    requires Tight(body) && (prefix == "" || prefix == "cede ") && (tail == "" || tail == "#" || tail == "$")
    ensures prefix + (body + tail) != "" && FirstOk((prefix + (body + tail))[0])
    ensures (prefix + (body + tail))[|prefix + (body + tail)| - 1] != ' '
    ensures tail == "" ==> LastOk((prefix + (body + tail))[|prefix + (body + tail)| - 1])
  {
    PrefixKeepsEnds(prefix, body + tail);
  }

  // ---------------------------------------------------------------- stages of the parser

  lemma {:induction false} NoLifetime(s: string, i: nat, balance: int)
    requires i <= |s| && '-' !in s
    ensures LifetimeCut(s, i, balance) == |s|
    decreases |s| - i
  {
    if i < |s| {
      assert i + 1 < |s| ==> s[i + 1] in s;
      NoLifetime(s, i + 1, balance + Bracket(s[i]));
    }
  }

  predicate AllMarks(s: string) {
    forall c | c in s :: c == '#' || c == '$'
  }

  lemma {:induction false} MarksStripped(s: string, marks: string)
    requires s != "" && LastOk(s[|s| - 1]) && AllMarks(marks)
    ensures StripMarks(s + marks) == Marked(s, '#' in marks, false, '$' in marks)
  {
    if marks == "" {
      assert s + marks == s;
    } else {
      var init, last := marks[..|marks| - 1], marks[|marks| - 1];
      assert last in marks && marks == init + [last];
      assert (s + marks)[..|s + marks| - 1] == s + init && (s + marks)[|s + marks| - 1] == last;
      assert forall c | c in init :: c in marks;
      MarksStripped(s, init);
    }
  }

  lemma TrimTight(s: string)
    requires s != "" && s[0] != ' ' && s[|s| - 1] != ' '
    ensures Trim(s) == s && Trim(" " + s) == s
  {
    assert (" " + s)[1..] == s;
  }

  predicate HasKeyword(s: string) {
    StartsWith(s, "cede ") || StartsWith(s, "nul ") ||
    (StartsWith(s, "nul") && |s| > 3 && (s[3] == '*' || s[3] == '^' || s[3] == '~' || s[3] == '&'))
  }

  predicate IsCallText(s: string) {
    StartsWith(s, "dyn fn#(") || StartsWith(s, "dynfn#(") || StartsWith(s, "fn#(") ||
    StartsWith(s, "dyn fn(") || StartsWith(s, "dynfn(") || StartsWith(s, "fn(")
  }

  /** A text that begins with no word the parser looks for. */
  predicate Unkeyed(s: string) {
    !HasKeyword(s) && !IsCallText(s)
  }

  lemma CedeStripped(cede: bool, s: string, w: bool, b: bool, raw: string)
    requires Tight(s) && !HasKeyword(s)
    ensures FromUnmarked(Mark(cede, "cede ") + s, w, b, raw) == FromBody(s, Attr(w, false, b, cede))
  {
    TrimTight(s);
    if cede {
      assert ("cede " + s)[5..] == s && ("cede " + s)[..5] == "cede ";
    } else {
      assert "" + s == s;
    }
  }

  lemma NotCallable(s: string, a: Attr)
    requires s != "" && !IsCallText(s) && '|' !in s
    ensures FromBody(s, a) == FromRest(s, a)
  {
    if |s| > 5 {
      assert s[|s| - 5] in s && s[|s| - 5..][0] == s[|s| - 5];
    }
    if |s| > 6 {
      assert s[|s| - 6] in s && s[|s| - 6..][0] == s[|s| - 6];
    }
  }

  /** From the outermost text of a type to its body: the trailing marks and "cede " are taken off. */
  lemma ReachBody(cede: bool, s: string, marks: string, raw: string)
    requires Tight(s) && Unkeyed(s) && '-' !in s && '|' !in s && AllMarks(marks)
    ensures FromTrimmed(Mark(cede, "cede ") + s + marks, raw)
         == FromRest(s, Attr('#' in marks, false, '$' in marks, cede))
  {
    var text := Mark(cede, "cede ") + s;
    NoLifetime(text + marks, 0, 0);
    MarksStripped(text, marks);
    CedeStripped(cede, s, '#' in marks, '$' in marks, raw);
    NotCallable(s, Attr('#' in marks, false, '$' in marks, cede));
  }

  /** A keyword cannot begin a text whose first characters are a name: at place k the keyword has a
      character that neither a name nor what follows a name has. */
  lemma NoKeyword(name: string, rest: string, word: string, k: nat)
    requires NameOk(name) && (rest == "" || rest[0] == '<' || rest[0] == ':')
    requires k < |word| && !IsNameChar(word[k]) && word[k] != '<' && word[k] != ':'
    requires forall i | 0 <= i < k :: IsNameChar(word[i])
    ensures !StartsWith(name + rest, word)
  {
    var s := name + rest;
    if |word| <= |s| {
      assert k < |name| ==> s[k] in name;
      assert |name| < |s| ==> s[|name|] == rest[0];
      assert s[..|word|][k] == s[k];
      assert |name| <= k ==> s[..|word|][|name|] == s[|name|];
    }
  }

  lemma NameUnkeyed(name: string, rest: string)
    requires NameOk(name) && (rest == "" || rest[0] == '<' || rest[0] == ':')
    ensures Unkeyed(name + rest)
  {
    NameHasNoKeyword(name, rest);
    NoKeyword(name, rest, "dyn fn#(", 3);
    NoKeyword(name, rest, "dynfn#(", 5);
    NoKeyword(name, rest, "fn#(", 2);
    NoKeyword(name, rest, "dyn fn(", 3);
    NoKeyword(name, rest, "dynfn(", 5);
    NoKeyword(name, rest, "fn(", 2);
  }

  lemma NameHasNoKeyword(name: string, rest: string)
    requires NameOk(name) && (rest == "" || rest[0] == '<' || rest[0] == ':')
    ensures !HasKeyword(name + rest)
  {
    var s := name + rest;
    NoKeyword(name, rest, "cede ", 4);
    NoKeyword(name, rest, "nul ", 3);
    assert |s| > 3 ==> s[..4] == s[..3] + [s[3]];
    if |s| > 3 && !IsNameChar(s[3]) && s[3] != '<' && s[3] != ':' {
      NoKeyword(name, rest, "nul" + [s[3]], 3);
    }
  }

  lemma SymbolUnkeyed(s: string)
    requires s != "" && (IsSigil(s[0]) || s[0] == '[' || s[0] == '(')
    ensures Unkeyed(s)
  {
    assert forall word: string | word != "" && StartsWith(s, word) :: s[0] == word[0];
  }

  // ---------------------------------------------------------------- cutting generic arguments

  /** The cutter runs over p without cutting it, at any depth of at least `least` brackets. */
  ghost predicate Passes(p: string, least: int) {
    forall rest: string, cur: string, balance: int | balance >= least ::
      SplitArgs(p + rest, cur, balance) == SplitArgs(rest, cur + p, balance)
  }

  lemma PassesConcat(p: string, q: string, least: int)
    requires Passes(p, least) && Passes(q, least)
    ensures Passes(p + q, least)
  {
    forall rest: string, cur: string, balance: int | balance >= least
      ensures SplitArgs((p + q) + rest, cur, balance) == SplitArgs(rest, cur + (p + q), balance)
    {
      PassBoth(p, q, least, rest, cur, balance);
    }
  }

  lemma PassBoth(p: string, q: string, least: int, rest: string, cur: string, balance: int)
    requires Passes(p, least) && Passes(q, least) && balance >= least
    ensures SplitArgs((p + q) + rest, cur, balance) == SplitArgs(rest, cur + (p + q), balance)
  {
    var more := q + rest;
    assert (p + q) + rest == p + more && cur + (p + q) == (cur + p) + q;
    assert SplitArgs(p + more, cur, balance) == SplitArgs(more, cur + p, balance);
  }

  lemma PassesConcat3(p: string, q: string, r: string, least: int)
    requires Passes(p, least) && Passes(q, least) && Passes(r, least)
    ensures Passes(p + q + r, least)
  {
    PassesConcat(p, q, least);
    PassesConcat(p + q, r, least);
  }

  lemma {:induction false} PlainStep(p: string, rest: string, cur: string, balance: int)
    requires '<' !in p && '>' !in p && ',' !in p
    ensures SplitArgs(p + rest, cur, balance) == SplitArgs(rest, cur + p, balance)
  {
    if p == "" {
      assert p + rest == rest && cur + p == cur;
    } else {
      assert p[0] in p && forall c | c in p[1..] :: c in p;
      assert (p + rest)[1..] == p[1..] + rest && cur + [p[0]] + p[1..] == cur + p;
      PlainStep(p[1..], rest, cur + [p[0]], balance);
    }
  }

  lemma PlainPasses(p: string)
    requires '<' !in p && '>' !in p && ',' !in p
    ensures Passes(p, 0) && Passes(p, 1)
  {
    forall rest: string, cur: string, balance: int
      ensures SplitArgs(p + rest, cur, balance) == SplitArgs(rest, cur + p, balance)
    {
      PlainStep(p, rest, cur, balance);
    }
  }

  lemma CommaStep(rest: string, cur: string, balance: int)
    requires balance >= 1
    ensures SplitArgs(", " + rest, cur, balance) == SplitArgs(rest, cur + ", ", balance)
  {
    PlainStep(" ", rest, cur + ",", balance);
    assert (", " + rest)[1..] == " " + rest && cur + "," + " " == cur + ", ";
  }

  lemma CommaPasses()
    ensures Passes(", ", 1)
  {
    forall rest: string, cur: string, balance: int | balance >= 1
      ensures SplitArgs(", " + rest, cur, balance) == SplitArgs(rest, cur + ", ", balance)
    {
      CommaStep(rest, cur, balance);
    }
  }

  lemma OpenStep(rest: string, cur: string, balance: int)
    requires rest != "" && rest[0] != '-'
    ensures SplitArgs("<" + rest, cur, balance) == SplitArgs(rest, cur + "<", balance + 1)
  {
    assert ("<" + rest)[1..] == rest;
  }

  lemma CloseStep(rest: string, cur: string, balance: int)
    ensures SplitArgs(">" + rest, cur, balance) == SplitArgs(rest, cur + ">", balance - 1)
  {
    assert (">" + rest)[1..] == rest;
  }

  lemma AnglesMeet(p: string, rest: string, cur: string, balance: int)
    requires p != "" && p[0] != '-'
    requires SplitArgs(p + (">" + rest), cur + "<", balance + 1) == SplitArgs(">" + rest, cur + "<" + p, balance + 1)
    ensures SplitArgs("<" + (p + (">" + rest)), cur, balance) == SplitArgs(rest, cur + "<" + p + ">", balance)
  {
    OpenStep(p + (">" + rest), cur, balance);
    CloseStep(rest, cur + "<" + p, balance + 1);
  }

  lemma AnglesStep(p: string, rest: string, cur: string, balance: int)
    requires Passes(p, 1) && p != "" && p[0] != '-' && balance >= 0
    ensures SplitArgs("<" + p + ">" + rest, cur, balance) == SplitArgs(rest, cur + ("<" + p + ">"), balance)
  {
    PassAt(p, ">" + rest, cur + "<", balance + 1);
    AnglesMeet(p, rest, cur, balance);
    assert "<" + p + ">" + rest == "<" + (p + (">" + rest));
    assert cur + "<" + p + ">" == cur + ("<" + p + ">");
  }

  lemma PassAt(p: string, rest: string, cur: string, balance: int)
    requires Passes(p, 1) && balance >= 1
    ensures SplitArgs(p + rest, cur, balance) == SplitArgs(rest, cur + p, balance)
  {
  }

  lemma AnglesPass(p: string)
    requires Passes(p, 1) && p != "" && p[0] != '-'
    ensures Passes("<" + p + ">", 0)
  {
    forall rest: string, cur: string, balance: int | balance >= 0
      ensures SplitArgs("<" + p + ">" + rest, cur, balance) == SplitArgs(rest, cur + ("<" + p + ">"), balance)
    {
      AnglesStep(p, rest, cur, balance);
    }
  }

  lemma PassesDeeper(p: string)
    requires Passes(p, 0)
    ensures Passes(p, 1)
  {
  }

  /** A printed type passes through the cutter whole: its own commas lie inside its own brackets. */
  lemma {:induction false} TextPasses(t: Ty)
    requires Printable(t)
    ensures Passes(ToString(t), 0)
    decreases t, 2
  {
    if IsPointer(t) {
      TextPasses(t.inner);
      HatPasses(t.a, t.wrapper);
      PassesConcat(HatText(t.a, t.wrapper), ToString(t.inner), 0);
    } else {
      BodyPasses(t);
      TailIsMarks(t);
      PlainPasses(Mark(SaysCede(t), "cede "));
      PlainPasses(TailMarks(t));
      PassesConcat(Body(t), TailMarks(t), 0);
      PassesConcat(Mark(SaysCede(t), "cede "), Body(t) + TailMarks(t), 0);
    }
  }

  lemma HatPasses(a: Attr, w: Wrapper)
    ensures Passes(HatText(a, w), 0)
  {
    PlainPasses(Mark(a.c, "cede "));
    PlainPasses(HatSigil(w, a.n));
    PlainPasses(HatMarkText(a));
    PassesConcat(HatSigil(w, a.n), HatMarkText(a), 0);
    PassesConcat(Mark(a.c, "cede "), HatSigil(w, a.n) + HatMarkText(a), 0);
  }

  lemma {:induction false} BodyPasses(t: Ty)
    requires Printable(t) && !IsPointer(t)
    ensures Passes(Body(t), 0)
    decreases t, 1
  {
    match t
    case Atom(_, leaf) =>
      if leaf.Primitive? {
        ReservedIsName(leaf.name);
        NameClean(leaf.name);
      }
      PlainPasses(Body(t));
    case Wrap(_, _, inner) =>
      TextPasses(inner);
      TextEnds(inner);
      WrapPasses(t);
    case Array(_, elem, _, _) =>
      TextPasses(elem);
      ArrayPasses(t);
    case Shape(_, name, args, variant, _) =>
      NameClean(name);
      NameClean(variant);
      if args == [] {
        assert Body(t) == name + variant;
        PlainPasses(name);
        PlainPasses(variant);
        PassesConcat(name, variant, 0);
      } else {
        JoinedPasses(args);
        TextEnds(args[0]);
        GenericPasses(name, Joined(args), variant);
        assert Body(t) == name + ("<" + Joined(args) + ">") + variant;
      }
  }

  lemma WrapPasses(t: Ty)
    requires t.Wrap? && (t.wrapper.Slice? || t.wrapper.Uninit? || t.wrapper.Place?)
    requires Passes(ToString(t.inner), 0) && ToString(t.inner) != "" && ToString(t.inner)[0] != '-'
    ensures Passes(Body(t), 0)
  {
    BodyOfWrap(t);
    if t.wrapper.Slice? {
      SlicePasses(ToString(t.inner));
    } else {
      GenericNamePlain(t.wrapper);
      WrappedPasses(GenericName(t.wrapper), ToString(t.inner));
    }
  }

  lemma BodyOfWrap(t: Ty)
    requires t.Wrap? && (t.wrapper.Slice? || t.wrapper.Uninit? || t.wrapper.Place?)
    ensures Body(t) == if t.wrapper.Slice? then "[" + ToString(t.inner) + "]"
                       else GenericName(t.wrapper) + ("<" + ToString(t.inner) + ">")
  {
  }

  lemma GenericNamePlain(w: Wrapper)
    ensures '<' !in GenericName(w) && '>' !in GenericName(w) && ',' !in GenericName(w)
  {
    GenericNameOk(w);
    NameClean(GenericName(w));
  }

  lemma SlicePasses(inside: string)
    requires Passes(inside, 0)
    ensures Passes("[" + inside + "]", 0)
  {
    PlainPasses("[");
    PlainPasses("]");
    PassesConcat3("[", inside, "]", 0);
  }

  lemma WrappedPasses(name: string, inside: string)
    requires '<' !in name && '>' !in name && ',' !in name
    requires Passes(inside, 0) && inside != "" && inside[0] != '-'
    ensures Passes(name + ("<" + inside + ">"), 0)
  {
    PassesDeeper(inside);
    PlainPasses(name);
    AnglesPass(inside);
    PassesConcat(name, "<" + inside + ">", 0);
  }

  lemma ArrayPasses(t: Ty)
    requires t.Array? && (t.extent != "" ==> NameOk(t.extent))
    requires Passes(ToString(t.elem), 0)
    ensures Passes(Body(t), 0)
  {
    var length := if t.extent == "" then Decimal(t.size) else t.extent;
    DecimalClean(t.size);
    BracketPasses(ToString(t.elem), length);
    BodyOfArray(t, ToString(t.elem), length);
  }

  lemma BodyOfArray(t: Ty, inside: string, length: string)
    requires t.Array? && inside == ToString(t.elem)
    requires length == if t.extent == "" then Decimal(t.size) else t.extent
    ensures Body(t) == "[" + inside + ("; " + length + "]")
  {
  }

  lemma BracketPasses(inside: string, length: string)
    requires Passes(inside, 0) && forall c | c in length :: IsNameChar(c)
    ensures Passes("[" + inside + ("; " + length + "]"), 0)
  {
    NameClean(length);
    PlainPasses("[");
    PlainPasses("; " + length + "]");
    PassesConcat3("[", inside, "; " + length + "]", 0);
  }

  lemma GenericPasses(name: string, inside: string, variant: string)
    requires '<' !in name && '>' !in name && ',' !in name && '<' !in variant && '>' !in variant && ',' !in variant
    requires Passes(inside, 1) && inside != "" && inside[0] != '-'
    ensures Passes(name + ("<" + inside + ">") + variant, 0)
  {
    PlainPasses(name);
    PlainPasses(variant);
    AnglesPass(inside);
    PassesConcat3(name, "<" + inside + ">", variant, 0);
  }

  lemma {:induction false} JoinedPasses(ts: seq<Ty>)
    requires PrintableAll(ts)
    ensures Passes(Joined(ts), 1)
    decreases ts, 0
  {
    if ts == [] {
      PlainPasses("");
    } else {
      TextPasses(ts[0]);
      PassesDeeper(ToString(ts[0]));
      if |ts| > 1 {
        CommaPasses();
        JoinedPasses(ts[1..]);
        PassesConcat3(ToString(ts[0]), ", ", Joined(ts[1..]), 1);
      }
    }
  }

  /** The texts between the commas: every one but the first keeps its leading blank. */
  function Pieces(ts: seq<Ty>, lead: string): (ps: seq<string>)
    ensures |ps| == |ts|
  {
    if ts == [] then [] else [lead + ToString(ts[0])] + Pieces(ts[1..], " ")
  }

  lemma {:induction false} CutJoined(ts: seq<Ty>, lead: string)
    requires PrintableAll(ts) && ts != []
    ensures SplitArgs(Joined(ts), lead, 0) == Pieces(ts, lead)
  {
    TextPasses(ts[0]);
    TextEnds(ts[0]);
    if |ts| == 1 {
      CutLast(ToString(ts[0]), lead);
    } else {
      assert Joined(ts) == ToString(ts[0]) + ", " + Joined(ts[1..]);
      CutFirst(ToString(ts[0]), Joined(ts[1..]), lead);
      CutJoined(ts[1..], " ");
    }
  }

  lemma CutLast(text: string, lead: string)
    requires Passes(text, 0) && text != ""
    ensures SplitArgs(text, lead, 0) == [lead + text]
  {
    assert text + "" == text;
    assert SplitArgs(text + "", lead, 0) == SplitArgs("", lead + text, 0);
  }

  lemma CutFirst(text: string, more: string, lead: string)
    requires Passes(text, 0)
    ensures SplitArgs(text + ", " + more, lead, 0) == [lead + text] + SplitArgs(more, " ", 0)
  {
    assert text + ", " + more == text + (", " + more);
    assert SplitArgs(text + (", " + more), lead, 0) == SplitArgs(", " + more, lead + text, 0);
    CutAtComma(more, lead + text);
  }

  lemma CutAtComma(more: string, cur: string)
    ensures SplitArgs(", " + more, cur, 0) == [cur] + SplitArgs(more, " ", 0)
  {
    assert (", " + more)[1..] == " " + more && "" + " " == " ";
    PlainStep(" ", more, "", 0);
    assert SplitArgs(" " + more, "", 0) == SplitArgs(more, " ", 0);
  }

  // ---------------------------------------------------------------- reading each form back

  /** The text of t, wherever it was cut from, reads back as t. */
  ghost predicate Reads(t: Ty) {
    forall raw: string :: FromTrimmed(ToString(t), raw) == t
  }

  lemma LeadTrimmed(lead: string, text: string)
    requires (lead == "" || lead == " ") && text != "" && text[0] != ' ' && text[|text| - 1] != ' '
    ensures Trim(lead + text) == text
  {
    TrimTight(text);
    assert "" + text == text;
  }

  lemma ReadsFromString(t: Ty, lead: string)
    requires Printable(t) && Reads(t) && (lead == "" || lead == " ")
    ensures FromString(lead + ToString(t)) == t
  {
    TextEnds(t);
    LeadTrimmed(lead, ToString(t));
    assert FromString(lead + ToString(t)) == FromTrimmed(ToString(t), lead + ToString(t));
  }

  lemma FirstPiece(first: string, rest: seq<string>, bound: nat)
    requires forall p | p in [first] + rest :: |p| <= bound
    ensures forall p | p in rest :: |p| <= bound
    ensures FromPieces([first] + rest, bound) == [FromString(first)] + FromPieces(rest, bound)
  {
    assert ([first] + rest)[1..] == rest && first in [first] + rest;
    assert forall p | p in rest :: p in [first] + rest;
  }

  lemma {:induction false} ReadPieces(ts: seq<Ty>, lead: string, bound: nat)
    requires PrintableAll(ts) && (lead == "" || lead == " ")
    requires forall i | 0 <= i < |ts| :: Reads(ts[i])
    requires forall p | p in Pieces(ts, lead) :: |p| <= bound
    ensures FromPieces(Pieces(ts, lead), bound) == ts
  {
    if ts != [] {
      var first, rest := lead + ToString(ts[0]), Pieces(ts[1..], " ");
      ReadsFromString(ts[0], lead);
      FirstPiece(first, rest, bound);
      ReadPieces(ts[1..], " ", bound);
      assert ts == [ts[0]] + ts[1..];
    }
  }

  lemma TightHasNoBlankEnds(s: string)
    requires Tight(s)
    ensures TrimBlanks(s) == s
  {
  }

  lemma VariantTrimmed(variant: string)
    requires VariantOk(variant)
    ensures TrimBlanks(variant) == variant
    ensures '<' !in variant && '>' !in variant
  {
    if variant != "" {
      assert variant[0] in variant && variant[|variant| - 1] in variant;
    }
  }

  lemma {:induction false} NoPair(s: string, i: nat)
    requires i <= |s| && ':' !in s
    ensures FindPair(s, ':', ':', i) == |s|
    decreases |s| - i
  {
    if i + 1 < |s| {
      assert s[i] in s;
      NoPair(s, i + 1);
    }
  }

  lemma {:induction false} PairAt(s: string, i: nat, k: nat)
    requires i <= k && k + 2 <= |s| && s[k] == ':' && s[k + 1] == ':'
    requires forall j | i <= j < k :: s[j] != ':'
    ensures FindPair(s, ':', ':', i) == k
    decreases k - i
  {
    if i < k {
      PairAt(s, i + 1, k);
    }
  }

  lemma ReadBareName(name: string, a: Attr)
    requires NameOk(name)
    ensures FromNamed(name, a) == Named(name, [], "", a)
  {
    NameClean(name);
    assert forall i | 0 <= i < |name| :: name[i] in name;
    NoPair(name, 0);
  }

  lemma PathCut(name: string, variant: string)
    requires NameOk(name) && VariantOk(variant) && variant != ""
    ensures FindPair(name + variant, ':', ':', 0) == |name|
  {
    var s := name + variant;
    assert forall i | 0 <= i < |name| :: s[i] in name;
    assert s[|name|] == variant[0] && s[|name| + 1] == variant[1];
    assert variant[..2][0] == variant[0] && variant[..2][1] == variant[1];
    PairAt(s, 0, |name|);
  }

  lemma NoAngles(s: string)
    requires '<' !in s
    ensures Find(s, '<', 0) == |s|
  {
    assert forall i | 0 <= i < |s| :: s[i] in s;
  }

  lemma ReadPath(name: string, variant: string, a: Attr)
    requires NameOk(name) && VariantOk(variant) && variant != ""
    ensures FromNamed(name + variant, a) == Named(name, [], variant, a)
  {
    var s := name + variant;
    NameClean(name);
    VariantTrimmed(variant);
    NoAngles(s);
    PathCut(name, variant);
    assert s[..|name|] == name && s[|name|..] == variant;
  }

  lemma ReadBareShape(name: string, variant: string, a: Attr)
    requires NameOk(name) && VariantOk(variant) && (variant == "" ==> name != "unknown")
    ensures FromShape(name + variant, a) == Named(name, [], variant, a)
  {
    if variant == "" {
      assert name + variant == name;
      ReadBareName(name, a);
    } else {
      assert (name + variant)[|name|] == ':';
      assert ':' in name + variant && ':' !in "unknown";
      ReadPath(name, variant, a);
    }
  }

  /** The outermost angle brackets cut s into a name, what is inside, and a tail. */
  predicate CutsInto(s: string, name: string, inside: string, tail: string) {
    var lt, gt := Find(s, '<', 0), FindLast(s, '>', |s|);
    lt < gt && s[..lt] == name && s[lt + 1..gt] == inside && s[gt + 1..] == tail
  }

  lemma FindLastIs(s: string, c: char, k: nat)
    requires k < |s| && s[k] == c && c !in s[k + 1..]
    ensures FindLast(s, c, |s|) == k
  {
    assert forall i | k < i < |s| :: s[i] == s[k + 1..][i - k - 1];
  }

  lemma OuterAngles(name: string, inside: string, variant: string)
    requires '<' !in name && '>' !in variant
    ensures CutsInto(name + ("<" + inside + ">") + variant, name, inside, variant)
  {
    var s := name + ("<" + inside + ">") + variant;
    var lt, gt := |name|, |name| + 1 + |inside|;
    assert s[..lt] == name && s[lt + 1..gt] == inside && s[gt + 1..] == variant;
    FindIs(s, '<', lt);
    FindLastIs(s, '>', gt);
  }

  lemma NotUnknown(name: string, inside: string, variant: string)
    ensures name + ("<" + inside + ">") + variant != "unknown"
  {
    var s := name + ("<" + inside + ">") + variant;
    assert s[|name|] == '<';
    assert '<' in s && '<' !in "unknown";
  }

  lemma ReadAngles(name: string, args: seq<Ty>, variant: string, a: Attr)
    requires VariantOk(variant) && args != [] && PrintableAll(args)
    requires forall i | 0 <= i < |args| :: Reads(args[i])
    ensures FromAngles(name, Joined(args), variant, a) == Named(name, args, variant, a)
  {
    VariantTrimmed(variant);
    CutJoined(args, "");
    ReadPieces(args, "", |Joined(args)|);
  }

  lemma FromCut(s: string, name: string, inside: string, tail: string, a: Attr)
    requires CutsInto(s, name, inside, tail) && s != "unknown"
    ensures FromShape(s, a) == FromAngles(name, inside, tail, a)
  {
  }

  lemma FromGeneric(name: string, inside: string, variant: string, a: Attr)
    requires '<' !in name && '>' !in variant
    ensures FromShape(name + ("<" + inside + ">") + variant, a) == FromAngles(name, inside, variant, a)
  {
    NotUnknown(name, inside, variant);
    OuterAngles(name, inside, variant);
    FromCut(name + ("<" + inside + ">") + variant, name, inside, variant, a);
  }

  lemma ReadGenericShape(name: string, args: seq<Ty>, variant: string, a: Attr)
    requires NameOk(name) && VariantOk(variant) && args != [] && PrintableAll(args)
    requires forall i | 0 <= i < |args| :: Reads(args[i])
    ensures FromShape(name + ("<" + Joined(args) + ">") + variant, a) == Named(name, args, variant, a)
  {
    NameClean(name);
    VariantTrimmed(variant);
    FromGeneric(name, Joined(args), variant, a);
    ReadAngles(name, args, variant, a);
  }

  /** A text that opens with a name and goes on with brackets or a path is none of the known words. */
  lemma NotReserved(name: string, rest: string)
    requires NameOk(name) && (rest == "" || rest[0] == '<' || rest[0] == ':') && (rest == "" ==> !Reserved(name))
    ensures name + rest != "()" && !Reserved(name + rest)
  {
    if rest == "" {
      assert name + rest == name && name[0] in name;
    } else {
      assert (name + rest)[|name|] == rest[0] && rest[0] in name + rest;
      assert (name + rest)[0] == name[0] && name[0] in name;
      if Reserved(name + rest) {
        ReservedIsName(name + rest);
      }
    }
  }

  lemma FromTight(s: string, a: Attr)
    requires Tight(s) && IsNameChar(s[0]) && s != "()" && !Reserved(s)
    ensures FromRest(s, a) == FromShape(s, a.(n := false))
  {
    TightHasNoBlankEnds(s);
  }

  lemma ReachShape(name: string, middle: string, variant: string, a: Attr)
    requires NameOk(name) && Tight(name + middle + variant)
    requires middle + variant == "" || (middle + variant)[0] == '<' || (middle + variant)[0] == ':'
    requires middle + variant == "" ==> !Reserved(name)
    ensures FromRest(name + middle + variant, a) == FromShape(name + middle + variant, a.(n := false))
  {
    Regroup(name, middle, variant);
    NotReserved(name, middle + variant);
    var s := name + (middle + variant);
    assert s[0] == name[0] && name[0] in name;
    FromTight(s, a);
  }

  lemma ReadNameText(name: string, variant: string, a: Attr)
    requires NameOk(name) && VariantOk(variant) && (variant == "" ==> !Reserved(name))
    ensures FromRest(name + variant, a) == Named(name, [], variant, a.(n := false))
  {
    var s := name + variant;
    NameTight(name);
    GenericTight(name, "", variant, true);
    assert name + "" + variant == s && "" + variant == variant;
    ReachShape(name, "", variant, a);
    ReadBareShape(name, variant, a.(n := false));
  }

  lemma ReadGenericText(name: string, args: seq<Ty>, variant: string, a: Attr)
    requires NameOk(name) && VariantOk(variant) && args != [] && PrintableAll(args)
    requires forall i | 0 <= i < |args| :: Reads(args[i])
    ensures FromRest(name + ("<" + Joined(args) + ">") + variant, a) == Named(name, args, variant, a.(n := false))
  {
    var middle := "<" + Joined(args) + ">";
    NameTight(name);
    GenericTight(name, Joined(args), variant, false);
    assert middle[0] == '<' && (middle + variant)[0] == '<';
    ReachShape(name, middle, variant, a);
    ReadGenericShape(name, args, variant, a.(n := false));
  }

  // ---------------------------------------------------------------- brackets

  lemma SliceText(inside: string, a: Attr)
    requires ';' !in inside && inside != "" && inside[0] != ' ' && inside[|inside| - 1] != ' '
    ensures FromRest("[" + inside + "]", a) == Wrap(a.(n := false), Slice, FromString(inside))
  {
    var s := "[" + inside + "]";
    assert ';' !in s;
    assert forall i | 0 <= i < |s| :: s[i] in s;
    assert s[|s| - 1] == ']' && s[1..|s| - 1] == inside;
    TrimTight(inside);
  }

  function ReadLength(elem: Ty, length: string, a: Attr): Ty {
    var size := ParseUInt64(length);
    Array(a, elem, if size.Some? then size.value else 0, if size.Some? then "" else Trim(length))
  }

  lemma FindIs(s: string, c: char, k: nat)
    requires k < |s| && s[k] == c && c !in s[..k]
    ensures Find(s, c, 0) == k
  {
    assert forall i | 0 <= i < k :: s[..k][i] == s[i];
  }

  lemma CutAtSemi(head: string, tail: string)
    requires ';' !in head
    ensures Find(head + (";" + tail), ';', 0) == |head|
  {
    assert (head + (";" + tail))[..|head|] == head;
    FindIs(head + (";" + tail), ';', |head|);
  }

  lemma ArrayText(inside: string, length: string, a: Attr)
    requires ';' !in inside
    ensures FromRest("[" + inside + "; " + length + "]", a)
         == ReadLength(FromString(inside), " " + length, a.(n := false))
  {
    var s := "[" + inside + "; " + length + "]";
    var semi := 1 + |inside|;
    CutAtSemi("[" + inside, " " + length + "]");
    assert s == ("[" + inside) + (";" + (" " + length + "]"));
    assert s[1..semi] == inside && s[semi + 1..|s| - 1] == " " + length;
    FromBrackets(s, semi, a);
  }

  lemma FromBrackets(s: string, semi: nat, a: Attr)
    requires 0 < semi < |s| - 1 && s[0] == '[' && s[|s| - 1] == ']' && Find(s, ';', 0) == semi
    ensures FromRest(s, a) == ReadLength(FromString(s[1..semi]), s[semi + 1..|s| - 1], a.(n := false))
  {
    assert FindLast(s, ']', |s|) == |s| - 1;
  }

  lemma {:induction false} DigitRunAll(s: string)
    requires AllDigits(s)
    ensures DigitRun(s) == |s|
  {
    if s != "" {
      DigitRunAll(s[1..]);
    }
  }

  lemma SkipOne(s: string)
    requires s != "" && (IsNameChar(s[0]))
    ensures SkipSpace(" " + s) == s && SkipSpace(s) == s
  {
    assert (" " + s)[1..] == s;
  }

  lemma ReadNumber(n: nat)
    requires n < LIMIT64
    ensures ParseUInt64(" " + Decimal(n)) == Some(n)
  {
    var s := Decimal(n);
    assert IsDigit(s[0]);
    SkipOne(s);
    DigitRunAll(s);
    DecimalRoundTrip(n);
    assert s[..|s|] == s;
  }

  lemma ReadSymbol(extent: string)
    requires NameOk(extent) && ParseUInt64(extent).None?
    ensures ParseUInt64(" " + extent).None? && Trim(" " + extent) == extent
  {
    assert extent[0] in extent && extent[|extent| - 1] in extent;
    SkipOne(extent);
    TrimTight(extent);
  }

  // ---------------------------------------------------------------- handles

  lemma HatMarksRead(s: string, a: Attr, n: nat)
    requires n == 1 + |HatMarkText(a)| < |s| && s[n] != '#' && s[n] != '$'
    requires (a.w ==> s[1] == '#') && (a.b ==> s[n - 1] == '$')
    ensures HatMarks(s, 1) == (n, a.w, a.b)
  {
    assert HatMarks(s, n) == (n, false, false);
    if a.b {
      assert HatMarks(s, n - 1) == (n, false, true);
    }
  }

  lemma HandleText(w: Wrapper, a: Attr, inner: string, outer: Attr)
    requires IsHandle(w) && (a.n ==> w.Raw?) && !outer.n && outer.c == a.c
    requires inner != "" && FirstOk(inner[0])
    ensures FromRest(HatSigil(w, a.n) + HatMarkText(a) + inner, outer)
         == Wrap(a, w, if outer.w || outer.b then ApplySoul(FromString(inner), outer.w, outer.b) else FromString(inner))
  {
    var sigil, marks := HatSigil(w, a.n), HatMarkText(a);
    var s := sigil + marks + inner;
    HatPlaces(sigil, marks, inner);
    HatMarksRead(s, a, 1 + |marks|);
    SigilRead(s, outer, 1 + |marks|, a.w, a.b);
  }

  /** A text that opens with a sigil is a handle on what stands behind its marks. */
  lemma SigilRead(s: string, a: Attr, offset: nat, w: bool, b: bool)
    requires s != "" && IsSigil(s[0]) && offset <= |s| && HatMarks(s, 1) == (offset, w, b)
    ensures FromRest(s, a) == Wrap(Attr(w, a.n || s[0] == '?', b, a.c), SigilHat(s[0]),
      if a.w || a.b then ApplySoul(FromString(s[offset..]), a.w, a.b) else FromString(s[offset..]))
  {
  }

  lemma HatPlaces(sigil: string, marks: string, inner: string)
    requires |sigil| == 1 && inner != ""
    ensures var s := sigil + marks + inner;
      && s[0] == sigil[0] && s[1 + |marks|] == inner[0] && s[1 + |marks|..] == inner
      && forall i | 0 <= i < |marks| :: s[1 + i] == marks[i]
  {
  }

  // ---------------------------------------------------------------- the round trip

  /** The soul of a chain without its write and block marks. */
  function StripSoul(t: Ty): Ty {
    if IsPointer(t) then t.(inner := StripSoul(t.inner)) else t.(a := t.a.(w := false, b := false))
  }

  /** The marks printed behind a chain: those of its soul. */
  function SoulMarks(t: Ty): string {
    if IsPointer(t) then SoulMarks(t.inner) else TailMarks(t)
  }

  /** What marks behind a printed chain do to the type read: they reach the deepest soul, unless the
      whole type is one of the three words that the parser returns without attributes. */
  function Annotated(t: Ty, w: bool, b: bool): Ty {
    if IsPointer(t) then (if w || b then ApplySoul(t, w, b) else t)
    else if t.Atom? && !t.leaf.Primitive? then t
    else t.(a := Attr(w, false, b, t.a.c))
  }

  lemma {:induction false} SoulStripped(t: Ty)
    requires Printable(t)
    ensures Printable(StripSoul(t)) && SoulBare(StripSoul(t)) && IsPointer(StripSoul(t)) == IsPointer(t)
    ensures Flat(t) ==> Flat(StripSoul(t))
    ensures AllMarks(SoulMarks(t))
  {
    if IsPointer(t) {
      SoulStripped(t.inner);
    } else {
      TailIsMarks(t);
    }
  }

  lemma {:induction false} SoulSplit(t: Ty)
    requires Printable(t)
    ensures ToString(t) == ToString(StripSoul(t)) + SoulMarks(t)
  {
    if IsPointer(t) {
      SoulSplit(t.inner);
      assert HatText(t.a, t.wrapper) + (ToString(StripSoul(t.inner)) + SoulMarks(t))
          == HatText(t.a, t.wrapper) + ToString(StripSoul(t.inner)) + SoulMarks(t);
    } else {
      BareText(t);
    }
  }

  lemma BareText(t: Ty)
    requires Printable(t) && !IsPointer(t)
    ensures ToString(StripSoul(t)) == Mark(SaysCede(t), "cede ") + Body(t)
  {
    var bare := StripSoul(t);
    assert Body(bare) == Body(t) && SaysCede(bare) == SaysCede(t) && TailMarks(bare) == "";
    assert Body(t) + "" == Body(t);
  }

  lemma {:induction false} SoulRestored(t: Ty)
    requires Printable(t)
    ensures Annotated(StripSoul(t), '#' in SoulMarks(t), '$' in SoulMarks(t)) == t
  {
    if IsPointer(t) {
      if '#' in SoulMarks(t) || '$' in SoulMarks(t) {
        SoulApplied(t);
      } else {
        SoulUnmarked(t);
      }
    }
  }

  lemma {:induction false} SoulApplied(t: Ty)
    requires Printable(t) && ('#' in SoulMarks(t) || '$' in SoulMarks(t))
    ensures ApplySoul(StripSoul(t), '#' in SoulMarks(t), '$' in SoulMarks(t)) == t
  {
    if IsPointer(t) {
      SoulApplied(t.inner);
    }
  }

  lemma {:induction false} SoulUnmarked(t: Ty)
    requires Printable(t) && '#' !in SoulMarks(t) && '$' !in SoulMarks(t)
    ensures StripSoul(t) == t
  {
    if IsPointer(t) {
      SoulUnmarked(t.inner);
    }
  }

  lemma BodyUnkeyed(t: Ty)
    requires Printable(t) && !IsPointer(t)
    ensures Unkeyed(Body(t))
  {
    match t
    case Atom(_, leaf) => AtomUnkeyed(t);
    case Wrap(_, wrapper, inner) =>
      if wrapper.Slice? {
        SymbolUnkeyed(Body(t));
      } else {
        WrappedUnkeyed(t);
      }
    case Array(_, _, _, _) => SymbolUnkeyed(Body(t));
    case Shape(_, name, args, variant, _) =>
      GenericUnkeyed(name, GenericText(args) + variant, Body(t));
  }

  lemma GenericNameOk(w: Wrapper)
    ensures NameOk(GenericName(w)) && !Reserved(GenericName(w))
  {
  }

  lemma WrappedUnkeyed(t: Ty)
    requires t.Wrap? && (t.wrapper.Uninit? || t.wrapper.Place?)
    ensures Unkeyed(Body(t))
  {
    GenericNameOk(t.wrapper);
    NameUnkeyed(GenericName(t.wrapper), "<" + ToString(t.inner) + ">");
  }

  lemma GenericUnkeyed(name: string, rest: string, text: string)
    requires NameOk(name) && (rest == "" || rest[0] == '<' || rest[0] == ':') && text == name + rest
    ensures Unkeyed(text)
  {
    NameUnkeyed(name, rest);
  }

  lemma AtomUnkeyed(t: Ty)
    requires Printable(t) && t.Atom?
    ensures Unkeyed(Body(t))
  {
    if t.leaf.Unit? {
      SymbolUnkeyed("()");
    } else {
      if t.leaf.Primitive? {
        ReservedIsName(t.leaf.name);
      }
      assert Body(t) + "" == Body(t);
      NameUnkeyed(Body(t), "");
    }
  }

  /** Every part of t reads back. */
  ghost predicate PartsRead(t: Ty) {
    match t
    case Atom(_, _) => true
    case Wrap(_, _, inner) => Reads(inner)
    case Array(_, elem, _, _) => Reads(elem)
    case Shape(_, _, args, _, _) => forall i | 0 <= i < |args| :: Reads(args[i])
    case Callable(_, _, _, _, _) => true
  }

  lemma ReadBody(t: Ty, w: bool, b: bool)
    requires Printable(t) && Flat(t) && !IsPointer(t) && SoulBare(t) && PartsRead(t)
    ensures FromRest(Body(t), Attr(w, false, b, SaysCede(t))) == Annotated(t, w, b)
  {
    match t
    case Atom(_, _) => ReadAtom(t, Attr(w, false, b, SaysCede(t)));
    case Wrap(_, wrapper, inner) =>
      if wrapper.Slice? {
        ReadSlice(t, Attr(w, false, b, SaysCede(t)));
      } else {
        ReadWrapped(t, Attr(w, false, b, SaysCede(t)));
      }
    case Array(_, _, _, _) => ReadArray(t, Attr(w, false, b, SaysCede(t)));
    case Shape(_, name, args, variant, _) =>
      if args == [] {
        assert name + "" + variant == name + variant;
        ReadNameText(name, variant, Attr(w, false, b, SaysCede(t)));
      } else {
        ReadGenericText(name, args, variant, Attr(w, false, b, SaysCede(t)));
      }
  }

  lemma ReadAtom(t: Ty, a: Attr)
    requires Printable(t) && t.Atom? && !a.n
    ensures FromRest(Body(t), a) == if t.leaf.Primitive? then SetAttr(t, a) else t
  {
    if t.leaf.Primitive? {
      ReadPrimitive(t.leaf.name, a);
    }
  }

  lemma ReadPrimitive(name: string, a: Attr)
    requires IsPrimitiveName(name) && !a.n
    ensures FromRest(name, a) == Atom(a, Primitive(name))
  {
    PrimitiveIsNoWord(name);
  }

  lemma PrimitiveIsNoWord(name: string)
    requires IsPrimitiveName(name)
    ensures name != "" && IsNameChar(name[0]) && name != "()" && name != "never" && name != "void"
  {
  }

  lemma ReadSlice(t: Ty, a: Attr)
    requires Printable(t) && Flat(t) && t.Wrap? && t.wrapper.Slice? && Reads(t.inner) && !a.n
    ensures FromRest(Body(t), a) == SetAttr(t, a)
  {
    TextClean(t.inner);
    TextEnds(t.inner);
    SliceText(ToString(t.inner), a);
    assert "" + ToString(t.inner) == ToString(t.inner);
    ReadsFromString(t.inner, "");
  }

  lemma ReadWrapped(t: Ty, a: Attr)
    requires Printable(t) && t.Wrap? && (t.wrapper.Uninit? || t.wrapper.Place?) && Reads(t.inner) && !a.n
    ensures FromRest(Body(t), a) == SetAttr(t, a)
  {
    var text := GenericName(t.wrapper) + ("<" + ToString(t.inner) + ">");
    GenericNameOk(t.wrapper);
    assert Joined([t.inner]) == ToString(t.inner);
    assert text + "" == text;
    ReadGenericText(GenericName(t.wrapper), [t.inner], "", a);
  }

  lemma ReadArray(t: Ty, a: Attr)
    requires Printable(t) && Flat(t) && t.Array? && Reads(t.elem) && !a.n
    ensures FromRest(Body(t), a) == SetAttr(t, a)
  {
    TextClean(t.elem);
    assert "" + ToString(t.elem) == ToString(t.elem);
    ReadsFromString(t.elem, "");
    if t.extent == "" {
      ReadNumber(t.size);
      ArrayText(ToString(t.elem), Decimal(t.size), a);
    } else {
      ReadSymbol(t.extent);
      ArrayText(ToString(t.elem), t.extent, a);
    }
  }

  function HandleBody(t: Ty): string
    requires IsPointer(t)
  {
    HatSigil(t.wrapper, t.a.n) + HatMarkText(t.a) + ToString(t.inner)
  }

  lemma HandleBodyRead(t: Ty)
    requires Printable(t) && IsPointer(t) && SoulBare(t)
    ensures ToString(t) == Mark(t.a.c, "cede ") + HandleBody(t)
    ensures Tight(HandleBody(t)) && Unkeyed(HandleBody(t)) && '-' !in HandleBody(t) && '|' !in HandleBody(t)
  {
    HandlePrinted(t);
    HandleBodyTight(t);
    SymbolUnkeyed(HandleBody(t));
    TextClean(t);
    SuffixClean(Mark(t.a.c, "cede "), HandleBody(t), NoArray(t));
  }

  lemma HandlePrinted(t: Ty)
    requires IsPointer(t)
    ensures ToString(t) == Mark(t.a.c, "cede ") + HandleBody(t)
  {
    Regroup(Mark(t.a.c, "cede "), HatSigil(t.wrapper, t.a.n) + HatMarkText(t.a), ToString(t.inner));
  }

  lemma SuffixClean(prefix: string, s: string, flat: bool)
    requires Clean(prefix + s, flat)
    ensures Clean(s, flat)
  {
    assert forall c | c in s :: c in prefix + s;
  }

  lemma HandleBodyTight(t: Ty)
    requires Printable(t) && IsPointer(t) && SoulBare(t)
    ensures Tight(HandleBody(t)) && IsSigil(HandleBody(t)[0])
  {
    TextEnds(t.inner);
    PrefixKeepsEnds(HatSigil(t.wrapper, t.a.n) + HatMarkText(t.a), ToString(t.inner));
  }

  lemma ReadHandle(t: Ty, marks: string, raw: string)
    requires Printable(t) && IsPointer(t) && SoulBare(t) && Reads(t.inner) && AllMarks(marks)
    ensures FromTrimmed(ToString(t) + marks, raw) == Annotated(t, '#' in marks, '$' in marks)
  {
    HandleBodyRead(t);
    ReachBody(t.a.c, HandleBody(t), marks, raw);
    HandleRest(t, '#' in marks, '$' in marks);
  }

  lemma HandleRest(t: Ty, w: bool, b: bool)
    requires Printable(t) && IsPointer(t) && SoulBare(t) && Reads(t.inner)
    ensures FromRest(HandleBody(t), Attr(w, false, b, t.a.c)) == Annotated(t, w, b)
  {
    TextEnds(t.inner);
    HandleText(t.wrapper, t.a, ToString(t.inner), Attr(w, false, b, t.a.c));
    assert "" + ToString(t.inner) == ToString(t.inner);
    ReadsFromString(t.inner, "");
  }

  lemma ReadUnhatted(t: Ty, marks: string, raw: string)
    requires Printable(t) && Flat(t) && !IsPointer(t) && SoulBare(t) && PartsRead(t) && AllMarks(marks)
    ensures FromTrimmed(ToString(t) + marks, raw) == Annotated(t, '#' in marks, '$' in marks)
  {
    TailIsMarks(t);
    BodyTight(t);
    BodyUnkeyed(t);
    BodyClean(t);
    assert Body(t) + "" == Body(t);
    ReachBody(SaysCede(t), Body(t), marks, raw);
    ReadBody(t, '#' in marks, '$' in marks);
  }

  /** Marks written behind a printed chain are read back as marks of its soul. */
  lemma {:induction false} ReadMarked(t: Ty, marks: string, raw: string)
    requires Printable(t) && Flat(t) && AllMarks(marks)
    ensures FromTrimmed(ToString(StripSoul(t)) + marks, raw) == Annotated(StripSoul(t), '#' in marks, '$' in marks)
    decreases t, 1
  {
    SoulStripped(t);
    if IsPointer(t) {
      forall r: string ensures FromTrimmed(ToString(StripSoul(t.inner)), r) == StripSoul(t.inner) {
        ReadMarked(t.inner, "", r);
        SoulStripped(t.inner);
        assert ToString(StripSoul(t.inner)) + "" == ToString(StripSoul(t.inner));
        BareUnchanged(StripSoul(t.inner));
      }
      ReadHandle(StripSoul(t), marks, raw);
    } else {
      PartsRoundTrip(t);
      ReadUnhatted(StripSoul(t), marks, raw);
    }
  }

  lemma BareUnchanged(t: Ty)
    requires Printable(t) && SoulBare(t)
    ensures Annotated(t, false, false) == t
  {
  }

  lemma {:induction false} PartsRoundTrip(t: Ty)
    requires Printable(t) && Flat(t) && !IsPointer(t)
    ensures PartsRead(t) && PartsRead(StripSoul(t))
    decreases t, 0
  {
    match t
    case Atom(_, _) =>
    case Wrap(_, wrapper, inner) =>
      if wrapper.Slice? {
        NoArrayIsFlat(inner);
      }
      RoundTrip(inner);
    case Array(_, elem, _, _) =>
      NoArrayIsFlat(elem);
      RoundTrip(elem);
    case Shape(_, _, args, _, _) =>
      forall i | 0 <= i < |args| ensures Reads(args[i]) {
        PrintableAt(args, i);
        FlatAt(args, i);
        RoundTrip(args[i]);
      }
  }

  lemma {:induction false} RoundTrip(t: Ty)
    requires Printable(t) && Flat(t)
    ensures Reads(t)
    decreases t, 2
  {
    forall raw: string ensures FromTrimmed(ToString(t), raw) == t {
      SoulSplit(t);
      SoulStripped(t);
      SoulRestored(t);
      ReadMarked(t, SoulMarks(t), raw);
    }
  }

  /** The string bridge: printing a printable type and parsing the text gives the type back. */
  lemma StringBridge(t: Ty)
    requires Printable(t) && Flat(t)
    ensures FromString(ToString(t)) == t
  {
    RoundTrip(t);
    ReadsFromString(t, "");
    assert "" + ToString(t) == ToString(t);
  }
}
