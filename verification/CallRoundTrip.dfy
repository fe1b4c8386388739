/** Reading back callables and outcomes, and the spellings that the printer does not use: a leading
    "nul" and a lifetime behind the type. */
module CallRoundTrip {
  import opened StringRoundTrip
  import opened Text
  import opened Types
  import opened TypeString

  // ---------------------------------------------------------------- brackets and commas

  function Brackets(p: string): int {
    if p == "" then 0 else Bracket(p[0]) + Brackets(p[1..])
  }

  /** No comma of p stands outside every bracket when p begins inside `balance` of them. */
  predicate Uncut(p: string, balance: int) {
    p == "" || ((p[0] == ',' ==> balance != 0) && Uncut(p[1..], balance + Bracket(p[0])))
  }

  /** Balanced, and never cut from `least` brackets on. */
  ghost predicate Holds(p: string, least: int) {
    Brackets(p) == 0 && forall balance: int | balance >= least :: Uncut(p, balance)
  }

  lemma {:induction false} UncutConcat(p: string, q: string, balance: int)
    ensures Brackets(p + q) == Brackets(p) + Brackets(q)
    ensures Uncut(p + q, balance) <==> Uncut(p, balance) && Uncut(q, balance + Brackets(p))
  {
    if p == "" {
      assert p + q == q;
    } else {
      assert (p + q)[1..] == p[1..] + q;
      UncutConcat(p[1..], q, balance + Bracket(p[0]));
    }
  }

  lemma HoldsConcat(p: string, q: string, least: int)
    requires Holds(p, least) && Holds(q, least)
    ensures Holds(p + q, least)
  {
    forall balance: int | balance >= least
      ensures Brackets(p + q) == 0 && Uncut(p + q, balance)
    {
      UncutConcat(p, q, balance);
    }
    UncutConcat(p, q, least);
  }

  predicate IsBracket(c: char) {
    c == '<' || c == '>' || c == '(' || c == ')' || c == '[' || c == ']'
  }

  lemma {:induction false} PlainUncut(p: string, balance: int)
    requires forall c | c in p :: !IsBracket(c) && (c == ',' ==> balance != 0)
    ensures Brackets(p) == 0 && Uncut(p, balance)
  {
    if p != "" {
      assert p[0] in p && forall c | c in p[1..] :: c in p;
      PlainUncut(p[1..], balance);
    }
  }

  lemma PlainHolds(p: string)
    requires forall c | c in p :: !IsBracket(c) && c != ','
    ensures Holds(p, 0) && Holds(p, 1)
  {
    forall balance: int
      ensures Uncut(p, balance)
    {
      PlainUncut(p, balance);
    }
    PlainUncut(p, 0);
  }

  lemma CommaHolds()
    ensures Holds(", ", 1)
  {
    forall balance: int | balance >= 1
      ensures Brackets(", ") == 0 && Uncut(", ", balance)
    {
      PlainUncut(", ", balance);
    }
    PlainUncut(", ", 1);
  }

  lemma OneBracket(c: string)
    requires |c| == 1
    ensures Brackets(c) == Bracket(c[0]) && forall balance: int :: Uncut(c, balance) <==> (c[0] == ',' ==> balance != 0)
  {
    assert c[1..] == "" && Brackets(c[1..]) == 0;
  }

  lemma Enclosed(open: string, p: string, close: string, balance: int)
    requires |open| == 1 && |close| == 1 && Bracket(open[0]) == 1 && Bracket(close[0]) == -1
    requires Holds(p, 1) && balance >= 0
    ensures Brackets(open + p + close) == 0 && Uncut(open + p + close, balance)
  {
    OneBracket(open);
    OneBracket(close);
    UncutConcat(open, p, balance);
    UncutConcat(open + p, close, balance);
  }

  lemma EnclosedHolds(open: string, p: string, close: string)
    requires |open| == 1 && |close| == 1 && Bracket(open[0]) == 1 && Bracket(close[0]) == -1
    requires Holds(p, 1)
    ensures Holds(open + p + close, 0)
  {
    forall balance: int | balance >= 0
      ensures Brackets(open + p + close) == 0 && Uncut(open + p + close, balance)
    {
      Enclosed(open, p, close, balance);
    }
    Enclosed(open, p, close, 0);
  }

  lemma HoldsDeeper(p: string)
    requires Holds(p, 0)
    ensures Holds(p, 1)
  {
  }

  lemma NameHolds(name: string)
    requires forall c | c in name :: IsNameChar(c) || c == ':'
    ensures Holds(name, 0)
  {
    PlainHolds(name);
  }

  lemma HatHolds(a: Attr, w: Wrapper)
    ensures Holds(HatText(a, w), 0)
  {
    PlainHolds(Mark(a.c, "cede "));
    PlainHolds(HatSigil(w, a.n));
    PlainHolds(HatMarkText(a));
    HoldsConcat(HatSigil(w, a.n), HatMarkText(a), 0);
    HoldsConcat(Mark(a.c, "cede "), HatSigil(w, a.n) + HatMarkText(a), 0);
  }

  /** A printed type is balanced, and its commas lie inside its own brackets. */
  lemma {:induction false} TextHolds(t: Ty)
    requires Printable(t)
    ensures Holds(ToString(t), 0)
    decreases t, 2
  {
    if IsPointer(t) {
      TextHolds(t.inner);
      HatHolds(t.a, t.wrapper);
      HoldsConcat(HatText(t.a, t.wrapper), ToString(t.inner), 0);
    } else {
      BodyHolds(t);
      PlainHolds(Mark(SaysCede(t), "cede "));
      TailIsMarks(t);
      PlainHolds(TailMarks(t));
      HoldsConcat(Body(t), TailMarks(t), 0);
      HoldsConcat(Mark(SaysCede(t), "cede "), Body(t) + TailMarks(t), 0);
    }
  }

  lemma {:induction false} BodyHolds(t: Ty)
    requires Printable(t) && !IsPointer(t)
    ensures Holds(Body(t), 0)
    decreases t, 1
  {
    match t
    case Atom(_, _) => AtomHolds(t);
    case Wrap(_, wrapper, inner) =>
      TextHolds(inner);
      HoldsDeeper(ToString(inner));
      WrapHolds(t);
    case Array(_, elem, size, extent) =>
      TextHolds(elem);
      ArrayHolds(t);
    case Shape(_, name, args, variant, _) =>
      JoinedHolds(args);
      GenericHolds(t);
  }

  lemma AtomHolds(t: Ty)
    requires Printable(t) && t.Atom?
    ensures Holds(Body(t), 0)
  {
    match t.leaf
    case Primitive(name) =>
      ReservedIsName(name);
      NameHolds(name);
    case Unit =>
      PlainHolds("");
      EnclosedHolds("(", "", ")");
      assert "(" + "" + ")" == "()";
    case Void => NameHolds("void");
    case Never => NameHolds("never");
  }

  lemma WrapHolds(t: Ty)
    requires t.Wrap? && (t.wrapper.Slice? || t.wrapper.Uninit? || t.wrapper.Place?) && Holds(ToString(t.inner), 1)
    ensures Holds(Body(t), 0)
  {
    var inside := ToString(t.inner);
    BodyOfWrap(t);
    if t.wrapper.Slice? {
      EnclosedHolds("[", inside, "]");
    } else {
      GenericNameOk(t.wrapper);
      NameHolds(GenericName(t.wrapper));
      EnclosedHolds("<", inside, ">");
      HoldsConcat(GenericName(t.wrapper), "<" + inside + ">", 0);
    }
  }

  lemma ArrayHolds(t: Ty)
    requires t.Array? && (t.extent != "" ==> NameOk(t.extent)) && Holds(ToString(t.elem), 0)
    ensures Holds(Body(t), 0)
  {
    var length := if t.extent == "" then Decimal(t.size) else t.extent;
    DecimalClean(t.size);
    LengthHolds(ToString(t.elem), length);
    BodyOfArray(t, ToString(t.elem), length);
  }

  lemma LengthHolds(inside: string, length: string)
    requires Holds(inside, 0) && forall c | c in length :: IsNameChar(c)
    ensures Holds("[" + inside + ("; " + length + "]"), 0)
  {
    PlainHolds("; " + length);
    HoldsConcat(inside, "; " + length, 0);
    HoldsDeeper(inside + ("; " + length));
    EnclosedHolds("[", inside + ("; " + length), "]");
    Regroup("[" + inside, "; " + length, "]");
    assert "[" + (inside + ("; " + length)) == ("[" + inside) + ("; " + length);
  }

  lemma GenericHolds(t: Ty)
    requires Printable(t) && t.Shape? && Holds(Joined(t.args), 1)
    ensures Holds(Body(t), 0)
  {
    var middle := GenericText(t.args);
    NameHolds(t.name);
    NameHolds(t.variant);
    if t.args == [] {
      PlainHolds("");
    } else {
      EnclosedHolds("<", Joined(t.args), ">");
    }
    HoldsConcat(t.name, middle, 0);
    HoldsConcat(t.name + middle, t.variant, 0);
  }

  lemma {:induction false} JoinedHolds(ts: seq<Ty>)
    requires PrintableAll(ts)
    ensures Holds(Joined(ts), 1)
    decreases ts, 0
  {
    if ts == [] {
      PlainHolds("");
    } else {
      TextHolds(ts[0]);
      HoldsDeeper(ToString(ts[0]));
      if |ts| > 1 {
        CommaHolds();
        JoinedHolds(ts[1..]);
        HoldsConcat(ToString(ts[0]), ", ", 1);
        HoldsConcat(ToString(ts[0]) + ", ", Joined(ts[1..]), 1);
      }
    }
  }

  // ---------------------------------------------------------------- cutting parameters

  lemma {:induction false} UncutStep(p: string, rest: string, cur: string, balance: int)
    requires Uncut(p, balance)
    ensures SplitParams(p + rest, cur, balance) == SplitParams(rest, cur + p, balance + Brackets(p))
  {
    if p == "" {
      assert p + rest == rest && cur + p == cur;
    } else {
      assert (p + rest)[1..] == p[1..] + rest && cur + [p[0]] + p[1..] == cur + p;
      UncutStep(p[1..], rest, cur + [p[0]], balance + Bracket(p[0]));
    }
  }

  /** One text in front of a comma, and the last one. */
  lemma CutPiece(p: string, more: string, lead: string)
    requires Holds(p, 0)
    ensures SplitParams(p + ("," + more), lead, 0) == [lead + p] + SplitParams(more, "", 0)
    ensures lead + p != "" ==> SplitParams(p, lead, 0) == [lead + p]
  {
    assert Uncut(p, 0) && Brackets(p) == 0;
    UncutStep(p, "," + more, lead, 0);
    AtComma(lead + p, more);
    UncutStep(p, "", lead, 0);
    assert p + "" == p;
  }

  lemma AtComma(cur: string, more: string)
    ensures SplitParams("," + more, cur, 0) == [cur] + SplitParams(more, "", 0)
  {
    assert ("," + more)[1..] == more;
  }

  lemma BlankLead(more: string)
    ensures SplitParams(" " + more, "", 0) == SplitParams(more, " ", 0)
  {
    assert (" " + more)[1..] == more && "" + " " == " ";
  }

  const DOTS := ", ..."

  function AllPieces(ts: seq<Ty>, lead: string, dots: bool): seq<string> {
    Pieces(ts, lead) + (if dots then [" ..."] else [])
  }

  lemma FirstOfAll(ts: seq<Ty>, lead: string, dots: bool)
    requires ts != []
    ensures AllPieces(ts, lead, dots) == [lead + ToString(ts[0])] + AllPieces(ts[1..], " ", dots)
  {
    Regroup([lead + ToString(ts[0])], Pieces(ts[1..], " "), if dots then [" ..."] else []);
  }

  /** A parameter list is cut into its texts, and the dots of a variadic one. */
  lemma {:induction false} CutParameters(ts: seq<Ty>, lead: string, dots: bool)
    requires PrintableAll(ts) && ts != []
    ensures SplitParams(Joined(ts) + Mark(dots, DOTS), lead, 0) == AllPieces(ts, lead, dots)
  {
    TextHolds(ts[0]);
    TextEnds(ts[0]);
    if |ts| == 1 {
      LastParameter(ToString(ts[0]), lead, dots);
    } else {
      CutParameters(ts[1..], " ", dots);
      FirstParameter(ToString(ts[0]), Joined(ts[1..]), lead, dots);
      assert Joined(ts) == ToString(ts[0]) + ", " + Joined(ts[1..]);
      FirstOfAll(ts, lead, dots);
    }
  }

  lemma FirstParameter(text: string, rest: string, lead: string, dots: bool)
    requires Holds(text, 0)
    ensures SplitParams(text + ", " + rest + Mark(dots, DOTS), lead, 0)
         == [lead + text] + SplitParams(rest + Mark(dots, DOTS), " ", 0)
  {
    var more := rest + Mark(dots, DOTS);
    assert text + ", " + rest + Mark(dots, DOTS) == text + ("," + (" " + more));
    CutPiece(text, " " + more, lead);
    BlankLead(more);
  }

  lemma LastParameter(text: string, lead: string, dots: bool)
    requires Holds(text, 0) && text != ""
    ensures SplitParams(text + Mark(dots, DOTS), lead, 0) == [lead + text] + (if dots then [" ..."] else [])
  {
    if dots {
      assert text + DOTS == text + ("," + " ...");
      CutPiece(text, " ...", lead);
      DotsAlone();
    } else {
      CutPiece(text, "", lead);
      assert text + "" == text;
    }
  }

  lemma DotsAlone()
    ensures SplitParams(" ...", "", 0) == [" ..."]
  {
    PlainUncut(" ...", 0);
    UncutStep(" ...", "", "", 0);
    assert " ..." + "" == " ..." && "" + " ..." == " ...";
  }

  function Texts(ts: seq<Ty>): (ps: seq<string>)
    ensures |ps| == |ts|
  {
    if ts == [] then [] else [ToString(ts[0])] + Texts(ts[1..])
  }

  /** Trimming leaves the texts of the types, and drops the dots. */
  lemma {:induction false} KeptTexts(ts: seq<Ty>, lead: string, dots: bool, dyn: bool, bound: nat)
    requires PrintableAll(ts) && (lead == "" || lead == " ") && (dots ==> !dyn)
    requires forall p | p in AllPieces(ts, lead, dots) :: |p| <= bound
    ensures KeptParams(AllPieces(ts, lead, dots), dyn, bound) == Texts(ts)
  {
    if ts == [] {
      DotsDropped(AllPieces(ts, lead, dots), dots, dyn, bound);
    } else {
      TextEnds(ts[0]);
      LeadTrimmed(lead, ToString(ts[0]));
      NotDots(ToString(ts[0]));
      FirstOfAll(ts, lead, dots);
      KeepFirst(lead + ToString(ts[0]), AllPieces(ts[1..], " ", dots), ToString(ts[0]), dyn, bound);
      KeptTexts(ts[1..], " ", dots, dyn, bound);
    }
  }

  lemma NotDots(text: string)
    requires text != "" && FirstOk(text[0])
    ensures text != "..."
  {
  }

  lemma DotsDropped(pieces: seq<string>, dots: bool, dyn: bool, bound: nat)
    requires pieces == (if dots then [" ..."] else []) && (dots ==> !dyn)
    requires forall p | p in pieces :: |p| <= bound
    ensures KeptParams(pieces, dyn, bound) == []
  {
    if dots {
      DotsTrimmed();
      assert pieces[1..] == [];
    }
  }

  lemma DotsTrimmed()
    ensures Trim(" ...") == "..."
  {
    TrimTight("...");
    assert " ..." == " " + "...";
  }

  lemma KeepFirst(piece: string, rest: seq<string>, text: string, dyn: bool, bound: nat)
    requires Trim(piece) == text && text != "" && text != "..."
    requires forall p | p in [piece] + rest :: |p| <= bound
    ensures forall p | p in rest :: |p| <= bound
    ensures KeptParams([piece] + rest, dyn, bound) == [text] + KeptParams(rest, dyn, bound)
  {
    assert ([piece] + rest)[1..] == rest && forall p | p in rest :: p in [piece] + rest;
  }

  lemma {:induction false} ReadTexts(ts: seq<Ty>, bound: nat)
    requires PrintableAll(ts) && FlatAll(ts) && forall p | p in Texts(ts) :: |p| <= bound
    ensures FromPieces(Texts(ts), bound) == ts
  {
    if ts != [] {
      StringBridge(ts[0]);
      FirstPiece(ToString(ts[0]), Texts(ts[1..]), bound);
      ReadTexts(ts[1..], bound);
      assert ts == [ts[0]] + ts[1..];
    }
  }

  /** The text between the parentheses. */
  function Inside(params: seq<Ty>, dots: bool): string {
    Joined(params) + Mark(dots, DOTS)
  }

  lemma CutInside(params: seq<Ty>, dots: bool)
    requires PrintableAll(params)
    ensures var pieces := SplitParams(Inside(params, dots), "", 0);
      if params == [] then pieces == if dots then ["", " ..."] else []
      else pieces == AllPieces(params, "", dots)
  {
    if params == [] {
      if dots {
        AtComma("", " ...");
        DotsAlone();
        assert "" + DOTS == "," + " ...";
      }
    } else {
      CutParameters(params, "", dots);
    }
  }

  lemma ReadInside(params: seq<Ty>, dots: bool, dyn: bool)
    requires PrintableAll(params) && FlatAll(params) && (dots ==> !dyn)
    ensures FromSignature(Inside(params, dots), dyn) == params
  {
    var inside := Inside(params, dots);
    var pieces := SplitParams(inside, "", 0);
    CutInside(params, dots);
    if params == [] {
      NoParameters(pieces, dyn, |inside|);
    } else {
      KeptTexts(params, "", dots, dyn, |inside|);
      ReadTexts(params, |inside|);
    }
  }

  lemma NoParameters(pieces: seq<string>, dyn: bool, bound: nat)
    requires pieces == [] || (pieces == ["", " ..."] && !dyn)
    requires forall p | p in pieces :: |p| <= bound
    ensures KeptParams(pieces, dyn, bound) == []
  {
    if pieces != [] {
      assert pieces[1..] == [" ..."] && Trim("") == "";
      assert forall p | p in pieces[1..] :: p in pieces;
      DotsDropped(pieces[1..], true, dyn, bound);
    }
  }

  lemma {:induction false} NoDots(ts: seq<Ty>, lead: string)
    requires PrintableAll(ts) && (lead == "" || lead == " ")
    ensures forall p | p in Pieces(ts, lead) :: Trim(p) != "..."
  {
    if ts != [] {
      TextEnds(ts[0]);
      LeadTrimmed(lead, ToString(ts[0]));
      assert ToString(ts[0])[0] != '.' && "..."[0] == '.';
      NoDots(ts[1..], " ");
    }
  }

  lemma VariadicInside(params: seq<Ty>, dots: bool)
    requires PrintableAll(params)
    ensures SaysVariadic(Inside(params, dots)) <==> dots
  {
    CutInside(params, dots);
    NoDots(params, "");
    DotsTrimmed();
    if dots {
      assert " ..." in SplitParams(Inside(params, dots), "", 0);
    }
  }

  // ---------------------------------------------------------------- where the parameters end

  /** How deep the parentheses are after p, or None where p closes one too many. */
  function Walk(p: string, depth: nat): Option<nat> {
    if p == "" then Some(depth)
    else if p[0] == '(' then Walk(p[1..], depth + 1)
    else if p[0] == ')' then (if depth == 0 then None else Walk(p[1..], depth - 1))
    else Walk(p[1..], depth)
  }

  ghost predicate Level(p: string) {
    forall depth: nat :: Walk(p, depth) == Some(depth)
  }

  lemma {:induction false} WalkConcat(p: string, q: string, depth: nat)
    requires Walk(p, depth).Some?
    ensures Walk(p + q, depth) == Walk(q, Walk(p, depth).value)
  {
    if p == "" {
      assert p + q == q;
    } else {
      assert (p + q)[1..] == p[1..] + q;
      WalkConcat(p[1..], q, if p[0] == '(' then depth + 1 else if p[0] == ')' then depth - 1 else depth);
    }
  }

  lemma LevelConcat(p: string, q: string)
    requires Level(p) && Level(q)
    ensures Level(p + q)
  {
    forall depth: nat
      ensures Walk(p + q, depth) == Some(depth)
    {
      WalkConcat(p, q, depth);
    }
  }

  lemma {:induction false} PlainWalk(p: string, depth: nat)
    requires '(' !in p && ')' !in p
    ensures Walk(p, depth) == Some(depth)
  {
    if p != "" {
      assert p[0] in p && forall c | c in p[1..] :: c in p;
      PlainWalk(p[1..], depth);
    }
  }

  lemma PlainLevel(p: string)
    requires '(' !in p && ')' !in p
    ensures Level(p)
  {
    forall depth: nat
      ensures Walk(p, depth) == Some(depth)
    {
      PlainWalk(p, depth);
    }
  }

  lemma UnitLevel()
    ensures Level("()")
  {
    forall depth: nat
      ensures Walk("()", depth) == Some(depth)
    {
      assert "()"[1..] == ")" && ")"[1..] == "";
      assert Walk("()", depth) == Walk(")", depth + 1) && Walk(")", depth + 1) == Walk("", depth);
    }
  }

  lemma {:induction false} TextLevel(t: Ty)
    requires Printable(t)
    ensures Level(ToString(t))
    decreases t, 2
  {
    if IsPointer(t) {
      TextLevel(t.inner);
      PlainLevel(HatText(t.a, t.wrapper));
      LevelConcat(HatText(t.a, t.wrapper), ToString(t.inner));
    } else {
      BodyLevel(t);
      PlainLevel(Mark(SaysCede(t), "cede "));
      TailIsMarks(t);
      PlainLevel(TailMarks(t));
      LevelConcat(Body(t), TailMarks(t));
      LevelConcat(Mark(SaysCede(t), "cede "), Body(t) + TailMarks(t));
    }
  }

  lemma LevelAround(before: string, p: string, after: string)
    requires '(' !in before && ')' !in before && '(' !in after && ')' !in after && Level(p)
    ensures Level(before + p + after)
  {
    PlainLevel(before);
    PlainLevel(after);
    LevelConcat(before, p);
    LevelConcat(before + p, after);
  }

  lemma NameLevel(name: string)
    requires forall c | c in name :: IsNameChar(c) || c == ':'
    ensures '(' !in name && ')' !in name
  {
  }

  lemma {:induction false} BodyLevel(t: Ty)
    requires Printable(t) && !IsPointer(t)
    ensures Level(Body(t))
    decreases t, 1
  {
    match t
    case Atom(_, leaf) =>
      if leaf.Unit? {
        UnitLevel();
      } else {
        if leaf.Primitive? {
          ReservedIsName(leaf.name);
        }
        NameLevel(Body(t));
        PlainLevel(Body(t));
      }
    case Wrap(_, _, inner) =>
      TextLevel(inner);
      WrapLevel(t);
    case Array(_, elem, size, extent) =>
      var length := if extent == "" then Decimal(size) else extent;
      TextLevel(elem);
      DecimalClean(size);
      NameLevel(length);
      BodyOfArray(t, ToString(elem), length);
      LevelAround("[", ToString(elem), "; " + length + "]");
    case Shape(_, name, args, variant, _) =>
      JoinedLevel(args);
      GenericLevel(t);
  }

  lemma WrapLevel(t: Ty)
    requires t.Wrap? && (t.wrapper.Slice? || t.wrapper.Uninit? || t.wrapper.Place?) && Level(ToString(t.inner))
    ensures Level(Body(t))
  {
    var inside := ToString(t.inner);
    BodyOfWrap(t);
    if t.wrapper.Slice? {
      LevelAround("[", inside, "]");
    } else {
      GenericNameOk(t.wrapper);
      NameLevel(GenericName(t.wrapper));
      LevelAround("<", inside, ">");
      PlainLevel(GenericName(t.wrapper));
      LevelConcat(GenericName(t.wrapper), "<" + inside + ">");
    }
  }

  lemma GenericLevel(t: Ty)
    requires Printable(t) && t.Shape? && Level(Joined(t.args))
    ensures Level(Body(t))
  {
    NameLevel(t.name);
    NameLevel(t.variant);
    if t.args == [] {
      LevelAround(t.name, Joined(t.args), t.variant);
    } else {
      LevelAround("<", Joined(t.args), ">");
      LevelAround(t.name, "<" + Joined(t.args) + ">", t.variant);
    }
  }

  lemma {:induction false} JoinedLevel(ts: seq<Ty>)
    requires PrintableAll(ts)
    ensures Level(Joined(ts))
    decreases ts, 0
  {
    if ts == [] {
      PlainLevel("");
    } else {
      TextLevel(ts[0]);
      if |ts| > 1 {
        JoinedLevel(ts[1..]);
        PlainLevel(", ");
        LevelConcat(ToString(ts[0]), ", ");
        LevelConcat(ToString(ts[0]) + ", ", Joined(ts[1..]));
      }
    }
  }

  lemma {:induction false} EndsAfter(s: string, i: nat, p: string, depth: nat)
    requires i + |p| <= |s| && s[i..i + |p|] == p && Walk(p, depth).Some?
    ensures ParamsEnd(s, i, depth) == ParamsEnd(s, i + |p|, Walk(p, depth).value)
    decreases |p|
  {
    if p != "" {
      assert s[i] == p[0] && s[i + 1..i + 1 + |p[1..]|] == p[1..];
      EndsAfter(s, i + 1, p[1..], if p[0] == '(' then depth + 1 else if p[0] == ')' then depth - 1 else depth);
    }
  }

  lemma EndFound(s: string, i: nat, inside: string)
    requires i + |inside| < |s| && s[i..i + |inside|] == inside && Level(inside) && s[i + |inside|] == ')'
    ensures ParamsEnd(s, i, 0) == i + |inside|
  {
    EndsAfter(s, i, inside, 0);
  }

  lemma Between(head: string, inside: string, rest: string)
    ensures var s, at := head + inside + (")" + rest), |head| + |inside|;
      at < |s| && s[..|head|] == head && s[|head|..at] == inside && s[at] == ')'
  {
    Regroup(head, inside, ")" + rest);
  }

  lemma ParamsEndAt(head: string, inside: string, rest: string)
    requires Level(inside)
    ensures ParamsEnd(head + inside + (")" + rest), |head|, 0) == |head| + |inside|
  {
    Between(head, inside, rest);
    EndFound(head + inside + (")" + rest), |head|, inside);
  }

  // ---------------------------------------------------------------- the stages of the parser

  lemma CallDyn(s: string, inside: string, start: nat, end: nat, a: Attr, mutable: bool)
    requires if start == 7 then StartsWith(s, "dyn fn(")
             else start == 6 && StartsWith(s, "dynfn(") && !StartsWith(s, "dyn fn(")
    requires start <= end < |s| && ParamsEnd(s, start, 0) == end && s[start..end] == inside
    ensures FromCall(s, a, mutable) ==
      Callable(a.(n := false), DynFn, FromSignature(inside, true), FromResult(s, end),
               if a.c then ConsumingCall else if mutable then MutableCall else SharedCall)
  {
  }

  lemma CallFn(s: string, inside: string, end: nat, a: Attr, mutable: bool)
    requires StartsWith(s, "fn(") && !StartsWith(s, "dyn fn(") && !StartsWith(s, "dynfn(")
    requires 3 <= end < |s| && ParamsEnd(s, 3, 0) == end && s[3..end] == inside
    ensures FromCall(s, a, mutable) ==
      Callable(a.(n := false), PlainFn(SaysVariadic(inside)), FromSignature(inside, false), FromResult(s, end),
               if a.c then ConsumingCall else if mutable then MutableCall else SharedCall)
  {
  }

  lemma DiffersAt(s: string, word: string, k: nat)
    requires k < |s| && k < |word| && s[k] != word[k]
    ensures !StartsWith(s, word)
  {
    if |word| <= |s| {
      assert s[..|word|][k] == s[k];
    }
  }

  lemma FnIsNoDyn(s: string)
    requires s != "" && s[0] == 'f'
    ensures !StartsWith(s, "dyn fn(") && !StartsWith(s, "dynfn(")
    ensures !StartsWith(s, "dyn fn#(") && !StartsWith(s, "dynfn#(")
  {
    DiffersAt(s, "dyn fn(", 0);
    DiffersAt(s, "dynfn(", 0);
    DiffersAt(s, "dyn fn#(", 0);
    DiffersAt(s, "dynfn#(", 0);
  }

  lemma {:induction false} NoArrow(s: string, i: nat)
    requires i <= |s| && forall j | i <= j < |s| :: s[j] != '-'
    ensures FindPair(s, '-', '>', i) == |s|
    decreases |s| - i
  {
    if i + 1 < |s| {
      NoArrow(s, i + 1);
    }
  }

  lemma ArrowAt(s: string, at: nat)
    requires at + 4 <= |s| && s[at..at + 4] == ") ->"
    ensures FindPair(s, '-', '>', at) == at + 2
  {
    assert s[at] == ')' && s[at + 1] == ' ' && s[at + 2] == '-' && s[at + 3] == '>' by {
      assert s[at..at + 4][0] == ')' && s[at..at + 4][1] == ' ' && s[at..at + 4][2] == '-' && s[at..at + 4][3] == '>';
    }
    assert FindPair(s, '-', '>', at + 1) == at + 2;
  }

  /** The result is what stands behind the arrow. */
  lemma ReadResult(head: string, result: string)
    requires result != "" && result[0] != ' ' && result[|result| - 1] != ' '
    ensures FromResult(head + (")" + Arrowed(result)), |head|) == FromString(result)
  {
    var s, at := head + (")" + Arrowed(result)), |head|;
    ResultPlaces(head, result);
    ArrowAt(s, at);
    LeadTrimmed(" ", result);
    assert FromResult(s, at) == FromString(Trim(s[at + 4..]));
  }

  lemma ResultPlaces(head: string, result: string)
    requires result != ""
    ensures var s, at := head + (")" + Arrowed(result)), |head|;
      at + 4 <= |s| && s[at..at + 4] == ") ->" && s[at + 4..] == " " + result
  {
    ArrowSpelled(result);
    Behind(head, ") ->", " " + result);
  }

  lemma ArrowSpelled(result: string)
    requires result != ""
    ensures ")" + Arrowed(result) == ") ->" + (" " + result)
  {
    assert Arrowed(result) == " ->" + (" " + result);
  }

  lemma Behind(head: string, middle: string, rest: string)
    ensures var s, at := head + (middle + rest), |head|;
      at + |middle| <= |s| && s[at..at + |middle|] == middle && s[at + |middle|..] == rest
  {
  }

  lemma NoResult(head: string)
    ensures FromResult(head + (")" + Arrowed("")), |head|) == Atom(PLAIN, Unit)
  {
    var s := head + (")" + Arrowed(""));
    assert |s| == |head| + 1 && s[|head|] == ')';
    NoArrow(s, |head|);
  }

  function Arrowed(result: string): string {
    if result == "" then "" else " -> " + result
  }

  /** The word of a callable; a dynamic one is also read without the blank in it. */
  function CallWord(dyn: bool, mutable: bool, spaced: bool): string {
    if dyn && spaced then (if mutable then "dyn fn#(" else "dyn fn(")
    else if dyn then (if mutable then "dynfn#(" else "dynfn(")
    else if mutable then "fn#(" else "fn("
  }

  /** A callable's text without "cede " and without the marks behind it. */
  function CallText(dyn: bool, mutable: bool, spaced: bool, inside: string, result: string): string {
    CallWord(dyn, mutable, spaced) + inside + (")" + Arrowed(result))
  }

  /** The mark of a mutable callable is taken out of its word. */
  lemma MarkDropped(dyn: bool, mutable: bool, spaced: bool, inside: string, result: string)
    ensures var s := CallText(dyn, mutable, spaced, inside, result);
      s != "" && DropCallMark(s) == (CallText(dyn, false, spaced, inside, result), mutable)
  {
    Regroup(CallWord(dyn, mutable, spaced), inside, ")" + Arrowed(result));
    Regroup(CallWord(dyn, false, spaced), inside, ")" + Arrowed(result));
    WordDropped(dyn, mutable, spaced, inside + (")" + Arrowed(result)));
  }

  lemma WordDropped(dyn: bool, mutable: bool, spaced: bool, rest: string)
    ensures DropCallMark(CallWord(dyn, mutable, spaced) + rest) == (CallWord(dyn, false, spaced) + rest, mutable)
  {
    var s := CallWord(dyn, mutable, spaced) + rest;
    assert s[..|CallWord(dyn, mutable, spaced)|] == CallWord(dyn, mutable, spaced);
    if dyn && spaced {
      DynDropped(s, mutable, rest);
    } else if dyn {
      UnspacedDropped(s, mutable, rest);
    } else {
      FnIsNoDyn(s);
      if mutable {
        assert s[..2] + s[3..] == "fn(" + rest;
      } else {
        DiffersAt(s, "fn#(", 2);
      }
    }
  }

  lemma DynDropped(s: string, mutable: bool, rest: string)
    requires s == (if mutable then "dyn fn#(" else "dyn fn(") + rest
    ensures DropCallMark(s) == ("dyn fn(" + rest, mutable)
  {
    if mutable {
      assert s[..8] == "dyn fn#(" && s[..6] + s[7..] == "dyn fn(" + rest;
    } else {
      DiffersAt(s, "dyn fn#(", 6);
      DiffersAt(s, "dynfn#(", 3);
      DiffersAt(s, "fn#(", 0);
    }
  }

  lemma UnspacedDropped(s: string, mutable: bool, rest: string)
    requires s == (if mutable then "dynfn#(" else "dynfn(") + rest
    ensures DropCallMark(s) == ("dynfn(" + rest, mutable)
  {
    DiffersAt(s, "dyn fn#(", 3);
    if mutable {
      assert s[..7] == "dynfn#(" && s[..5] + s[6..] == "dynfn(" + rest;
    } else {
      DiffersAt(s, "dynfn#(", 5);
      DiffersAt(s, "fn#(", 0);
    }
  }

  lemma NoBar(s: string)
    requires '|' !in s
    ensures MissCut(s) == |s|
  {
    if |s| > 5 {
      assert s[|s| - 5] in s && s[|s| - 5..][0] == s[|s| - 5];
    }
    if |s| > 6 {
      assert s[|s| - 6] in s && s[|s| - 6..][0] == s[|s| - 6];
    }
  }

  lemma CallHasNoBar(dyn: bool, mutable: bool, spaced: bool, inside: string, result: string)
    requires '|' !in inside && '|' !in result
    ensures '|' !in CallText(dyn, mutable, spaced, inside, result)
  {
    assert '|' !in CallWord(dyn, mutable, spaced) && '|' !in Arrowed(result);
  }

  lemma ReadCallText(dyn: bool, variadic: bool, mutable: bool, spaced: bool, inside: string, result: string, a: Attr)
    requires Level(inside) && '|' !in inside && '|' !in result && !a.n && (!dyn ==> SaysVariadic(inside) == variadic)
    requires result == "" || (result[0] != ' ' && result[|result| - 1] != ' ')
    ensures FromBody(CallText(dyn, mutable, spaced, inside, result), a) ==
      Callable(a, if dyn then DynFn else PlainFn(variadic), FromSignature(inside, dyn),
               if result == "" then Atom(PLAIN, Unit) else FromString(result),
               if a.c then ConsumingCall else if mutable then MutableCall else SharedCall)
  {
    var s, core := CallText(dyn, mutable, spaced, inside, result), CallText(dyn, false, spaced, inside, result);
    CallHasNoBar(dyn, mutable, spaced, inside, result);
    NoBar(s);
    MarkDropped(dyn, mutable, spaced, inside, result);
    assert FromBody(s, a) == FromCall(core, a, mutable);
    ReadCore(dyn, spaced, inside, result, a, mutable);
  }

  lemma ReadCore(dyn: bool, spaced: bool, inside: string, result: string, a: Attr, mutable: bool)
    requires Level(inside) && !a.n
    requires result == "" || (result[0] != ' ' && result[|result| - 1] != ' ')
    ensures FromCall(CallText(dyn, false, spaced, inside, result), a, mutable) ==
      Callable(a, if dyn then DynFn else PlainFn(SaysVariadic(inside)), FromSignature(inside, dyn),
               if result == "" then Atom(PLAIN, Unit) else FromString(result),
               if a.c then ConsumingCall else if mutable then MutableCall else SharedCall)
  {
    var word, s := CallWord(dyn, false, spaced), CallText(dyn, false, spaced, inside, result);
    Between(word, inside, Arrowed(result));
    ParamsEndAt(word, inside, Arrowed(result));
    if dyn {
      if !spaced {
        DiffersAt(s, "dyn fn(", 3);
      }
      CallDyn(s, inside, |word|, |word| + |inside|, a, mutable);
    } else {
      FnIsNoDyn(s);
      CallFn(s, inside, 3 + |inside|, a, mutable);
    }
    if result == "" {
      NoResult(word + inside);
    } else {
      ReadResult(word + inside, result);
    }
  }

  lemma {:induction false} NoLifetimeAt(s: string, i: nat, balance: int)
    requires i <= |s| && forall j | 0 <= j < |s| - 1 :: s[j] == '<' ==> s[j + 1] != '-'
    ensures LifetimeCut(s, i, balance) == |s|
    decreases |s| - i
  {
    if i < |s| {
      NoLifetimeAt(s, i + 1, balance + Bracket(s[i]));
    }
  }

  /** The arrow of a result is no lifetime: a blank stands in front of it. */
  lemma ArrowIsNoLifetime(before: string, result: string, marks: string)
    requires '-' !in before && '-' !in result && '-' !in marks
    ensures var s := before + Arrowed(result) + marks; LifetimeCut(s, 0, 0) == |s|
  {
    var s := before + Arrowed(result) + marks;
    if result == "" {
      assert s == before + marks;
      NoLifetime(s, 0, 0);
    } else {
      assert s == before + " " + "-" + ("> " + result + marks);
      assert forall j | 0 <= j < |s| && s[j] == '-' :: j == |before| + 1 by {
        assert '-' !in before + " " && '-' !in "> " + result + marks;
        assert forall j | 0 <= j < |before| + 1 :: s[j] in before + " ";
        assert forall j | |before| + 2 <= j < |s| :: s[j] in "> " + result + marks;
      }
      assert s[|before|] == ' ';
      NoLifetimeAt(s, 0, 0);
    }
  }

  /** From the outermost text of a callable to its core. */
  lemma ReachCall(cede: bool, core: string, marks: string, raw: string)
    requires Tight(core) && !HasKeyword(core) && AllMarks(marks)
    requires var text := Mark(cede, "cede ") + core + marks; LifetimeCut(text, 0, 0) == |text|
    ensures FromTrimmed(Mark(cede, "cede ") + core + marks, raw)
         == FromBody(core, Attr('#' in marks, false, '$' in marks, cede))
  {
    MarksStripped(Mark(cede, "cede ") + core, marks);
    CedeStripped(cede, core, '#' in marks, '$' in marks, raw);
  }

  // ---------------------------------------------------------------- callables

  predicate PartsPrintable(t: Ty) {
    t.Callable? && PrintableAll(t.params) && FlatAll(t.params) && Printable(t.ret) && Flat(t.ret)
  }

  predicate ReturnsVoid(t: Ty)
    requires t.Callable?
  {
    t.ret.Atom? && t.ret.leaf.Void?
  }

  function ResultText(t: Ty): string
    requires t.Callable?
  {
    if ReturnsVoid(t) then "" else ToString(StripSoul(t.ret))
  }

  function InsideText(t: Ty): string
    requires t.Callable?
  {
    Inside(t.params, t.form.PlainFn? && t.form.variadic)
  }

  /** The marks at the end: those of the result's soul, and the callable's own. */
  function EndMarks(t: Ty): string
    requires t.Callable?
  {
    (if ReturnsVoid(t) then "" else SoulMarks(t.ret)) + Mark(t.a.w, "#")
  }

  function CoreText(t: Ty, spaced: bool): string
    requires t.Callable?
  {
    CallText(t.form.DynFn?, t.mode.MutableCall?, spaced, InsideText(t), ResultText(t))
  }

  lemma CallPrinted(t: Ty)
    requires PartsPrintable(t)
    ensures ToString(t) == Mark(t.mode.ConsumingCall?, "cede ") + CoreText(t, true) + EndMarks(t)
  {
    BodyOfCall(t);
    assert ToString(t) == Mark(t.mode.ConsumingCall?, "cede ") + (Body(t) + Mark(t.a.w, "#"));
    CallMarks(Mark(t.mode.ConsumingCall?, "cede "), CoreText(t, true),
              if ReturnsVoid(t) then "" else SoulMarks(t.ret), Mark(t.a.w, "#"));
  }

  lemma CallMarks(cede: string, core: string, result: string, own: string)
    ensures cede + ((core + result) + own) == cede + core + (result + own)
  {
    Regroup(core, result, own);
    Regroup(cede, core, result + own);
  }

  lemma Assembled(head: string, joined: string, dots: string, arrow: string)
    ensures head + joined + dots + ")" + arrow == head + (joined + dots) + (")" + arrow)
  {
    Regroup(head, joined, dots);
    Regroup(head + (joined + dots), ")", arrow);
  }

  lemma MarksBehind(head: string, inside: string, result: string, marks: string)
    requires result != ""
    ensures head + inside + (")" + (" -> " + (result + marks))) == head + inside + (")" + Arrowed(result)) + marks
  {
    Regroup(" -> ", result, marks);
    Regroup(")", " -> " + result, marks);
    Regroup(head + inside, ")" + Arrowed(result), marks);
  }

  lemma BodyOfCall(t: Ty)
    requires PartsPrintable(t)
    ensures Body(t) == CoreText(t, true) + (if ReturnsVoid(t) then "" else SoulMarks(t.ret))
  {
    var head := CallWord(t.form.DynFn?, t.mode.MutableCall?, true);
    assert head == Mark(t.form.DynFn?, "dyn ") + (if t.mode.MutableCall? then "fn#(" else "fn(");
    var dots := Mark(t.form.PlainFn? && t.form.variadic, DOTS);
    var arrow := if ReturnsVoid(t) then "" else " -> " + ToString(t.ret);
    assert Body(t) == head + Joined(t.params) + dots + ")" + arrow;
    Assembled(head, Joined(t.params), dots, arrow);
    if ReturnsVoid(t) {
      assert CoreText(t, true) + "" == CoreText(t, true);
    } else {
      SoulSplit(t.ret);
      SoulStripped(t.ret);
      TextEnds(StripSoul(t.ret));
      MarksBehind(head, InsideText(t), ResultText(t), SoulMarks(t.ret));
    }
  }

  lemma InsideFits(t: Ty)
    requires PartsPrintable(t)
    ensures Level(InsideText(t)) && '-' !in InsideText(t) && '|' !in InsideText(t)
  {
    JoinedLevel(t.params);
    JoinedClean(t.params);
    PlainLevel(Mark(t.form.PlainFn? && t.form.variadic, DOTS));
    LevelConcat(Joined(t.params), Mark(t.form.PlainFn? && t.form.variadic, DOTS));
  }

  lemma ResultFits(t: Ty)
    requires PartsPrintable(t)
    ensures '-' !in ResultText(t) && '|' !in ResultText(t) && AllMarks(EndMarks(t)) && '-' !in EndMarks(t)
    ensures ResultText(t) == "" <==> ReturnsVoid(t)
    ensures ResultText(t) != "" ==>
      ResultText(t)[0] != ' ' && ResultText(t)[|ResultText(t)| - 1] != ' ' && LastOk(ResultText(t)[|ResultText(t)| - 1])
  {
    EndMarksFit(t);
    if !ReturnsVoid(t) {
      SoulStripped(t.ret);
      BareFits(StripSoul(t.ret));
    }
  }

  lemma EndMarksFit(t: Ty)
    requires PartsPrintable(t)
    ensures AllMarks(EndMarks(t)) && '-' !in EndMarks(t)
  {
    SoulStripped(t.ret);
    MarksFit(if ReturnsVoid(t) then "" else SoulMarks(t.ret), Mark(t.a.w, "#"));
  }

  lemma MarksFit(p: string, q: string)
    requires AllMarks(p) && AllMarks(q)
    ensures AllMarks(p + q) && '-' !in p + q
  {
  }

  lemma BareFits(t: Ty)
    requires Printable(t) && SoulBare(t)
    ensures var s := ToString(t);
      && s != "" && '-' !in s && '|' !in s && s[0] != ' ' && s[|s| - 1] != ' ' && LastOk(s[|s| - 1])
  {
    TextClean(t);
    TextEnds(t);
  }

  lemma CoreFits(t: Ty, spaced: bool)
    requires PartsPrintable(t)
    ensures Tight(CoreText(t, spaced)) && !HasKeyword(CoreText(t, spaced))
  {
    ResultFits(t);
    CallTight(t.form.DynFn?, t.mode.MutableCall?, spaced, InsideText(t), ResultText(t));
  }

  lemma CallTight(dyn: bool, mutable: bool, spaced: bool, inside: string, result: string)
    requires result != "" ==> LastOk(result[|result| - 1])
    ensures var s := CallText(dyn, mutable, spaced, inside, result); Tight(s) && !HasKeyword(s)
  {
    var s, word := CallText(dyn, mutable, spaced, inside, result), CallWord(dyn, mutable, spaced);
    Regroup(word, inside, ")" + Arrowed(result));
    assert s[0] == word[0] && (word[0] == 'f' || word[0] == 'd');
    CallEnds(word + inside, result);
    NoKeywordFirst(s);
  }

  lemma CallEnds(head: string, result: string)
    ensures var s := head + (")" + Arrowed(result)); s[|s| - 1] == if result == "" then ')' else result[|result| - 1]
  {
    if result != "" {
      Regroup(head, ")", " -> " + result);
      assert (" -> " + result)[3 + |result|] == result[|result| - 1];
    }
  }

  lemma NoKeywordFirst(s: string)
    requires s != "" && s[0] != 'c' && s[0] != 'n'
    ensures !HasKeyword(s)
  {
    DiffersAt(s, "cede ", 0);
    DiffersAt(s, "nul ", 0);
    DiffersAt(s, "nul", 0);
  }

  lemma BeforeArrow(cede: string, head: string, inside: string, arrowed: string, marks: string)
    ensures cede + (head + inside + (")" + arrowed)) + marks == cede + (head + inside + ")") + arrowed + marks
  {
    Regroup(head + inside, ")", arrowed);
    Regroup(cede, head + inside + ")", arrowed);
  }

  lemma CallHasNoLifetime(t: Ty, spaced: bool)
    requires PartsPrintable(t)
    ensures var text := Mark(t.mode.ConsumingCall?, "cede ") + CoreText(t, spaced) + EndMarks(t);
      LifetimeCut(text, 0, 0) == |text|
  {
    var cede := Mark(t.mode.ConsumingCall?, "cede ");
    var word := CallWord(t.form.DynFn?, t.mode.MutableCall?, spaced);
    InsideFits(t);
    ResultFits(t);
    BeforeArrow(cede, word, InsideText(t), Arrowed(ResultText(t)), EndMarks(t));
    assert '-' !in word && '-' !in cede;
    NoDashes(cede, word, InsideText(t));
    ArrowIsNoLifetime(cede + (word + InsideText(t) + ")"), ResultText(t), EndMarks(t));
  }

  lemma NoDashes(p: string, q: string, r: string)
    requires '-' !in p && '-' !in q && '-' !in r
    ensures '-' !in p + (q + r + ")")
  {
  }

  /** What the parser makes of a printed callable: the marks at its end all become its own, "cede "
      makes it consuming, and a result that is not written is unit. */
  function ReadBack(t: Ty): Ty
    requires t.Callable?
  {
    Callable(Attr('#' in EndMarks(t), false, '$' in EndMarks(t), t.mode.ConsumingCall?), t.form, t.params,
             if ReturnsVoid(t) then Atom(PLAIN, Unit) else StripSoul(t.ret), t.mode)
  }

  lemma CoreRead(t: Ty, spaced: bool, a: Attr)
    requires PartsPrintable(t) && !a.n && a.c == t.mode.ConsumingCall?
    ensures FromBody(CoreText(t, spaced), a) == ReadBack(t).(a := a)
  {
    var variadic := t.form.PlainFn? && t.form.variadic;
    InsideFits(t);
    ResultFits(t);
    VariadicInside(t.params, variadic);
    ReadCallText(t.form.DynFn?, variadic, t.mode.MutableCall?, spaced, InsideText(t), ResultText(t), a);
    ReadInside(t.params, variadic, t.form.DynFn?);
    if !ReturnsVoid(t) {
      SoulStripped(t.ret);
      StringBridge(StripSoul(t.ret));
    }
  }

  /** The text of a callable is read with its form, its parameters, its result and its receiver, also
      when the word of a dynamic one is written without the blank. */
  lemma SpelledCallRead(t: Ty, spaced: bool)
    requires PartsPrintable(t)
    ensures FromString(Mark(t.mode.ConsumingCall?, "cede ") + CoreText(t, spaced) + EndMarks(t)) == ReadBack(t)
  {
    var cede, core, marks := t.mode.ConsumingCall?, CoreText(t, spaced), EndMarks(t);
    CoreFits(t, spaced);
    ResultFits(t);
    CallHasNoLifetime(t, spaced);
    CallTrimmed(cede, core, marks);
    ReachCall(cede, core, marks, Mark(cede, "cede ") + core + marks);
    CoreRead(t, spaced, Attr('#' in marks, false, '$' in marks, cede));
  }

  lemma CallRead(t: Ty)
    requires PartsPrintable(t)
    ensures FromString(ToString(t)) == ReadBack(t)
  {
    CallPrinted(t);
    SpelledCallRead(t, true);
  }

  lemma CallTrimmed(cede: bool, core: string, marks: string)
    requires Tight(core) && AllMarks(marks)
    ensures var text := Mark(cede, "cede ") + core + marks; Trim(text) == text
  {
    var text := Mark(cede, "cede ") + core + marks;
    assert marks != "" ==> marks[|marks| - 1] in marks;
    TrimTight(text);
  }

  /** A callable survives exactly when it has no marks but the write mark and, if it is consuming, the
      cede mark, and when its result is not void and ends in no mark. */
  predicate CallStable(t: Ty)
    requires t.Callable?
  {
    !t.a.n && !t.a.b && (t.a.c <==> t.mode.ConsumingCall?) && !ReturnsVoid(t) && SoulBare(t.ret)
  }

  lemma CallRoundTripIff(t: Ty)
    requires PartsPrintable(t)
    ensures FromString(ToString(t)) == t <==> CallStable(t)
  {
    CallRead(t);
    BareMarks(t.ret);
    BareOrStripped(t.ret);
  }

  lemma {:induction false} BareMarks(t: Ty)
    requires Printable(t)
    ensures SoulBare(t) ==> SoulMarks(t) == ""
  {
    if IsPointer(t) {
      BareMarks(t.inner);
    } else {
      TailIsMarks(t);
    }
  }

  lemma {:induction false} BareOrStripped(t: Ty)
    ensures StripSoul(t) == t <==> SoulBare(t)
  {
    if IsPointer(t) {
      BareOrStripped(t.inner);
    }
  }

  // ---------------------------------------------------------------- outcomes

  /** The text of the type begins with "cede ". */
  predicate Ceded(t: Ty) {
    if IsPointer(t) then t.a.c else SaysCede(t)
  }

  function Unceded(t: Ty): Ty {
    t.(a := t.a.(c := false))
  }

  lemma CedeInFront(t: Ty)
    requires Printable(t)
    ensures ToString(t) == Mark(Ceded(t), "cede ") + ToString(Unceded(t))
    ensures Printable(Unceded(t)) && (Flat(t) ==> Flat(Unceded(t))) && !Ceded(Unceded(t))
  {
    var u := Unceded(t);
    if IsPointer(t) {
      Regroup(Mark(t.a.c, "cede "), HatSigil(t.wrapper, t.a.n) + HatMarkText(t.a), ToString(t.inner));
      assert ToString(u) == HatText(u.a, u.wrapper) + ToString(t.inner);
      assert HatText(u.a, u.wrapper) == HatSigil(t.wrapper, t.a.n) + HatMarkText(t.a);
    } else {
      assert Body(u) == Body(t) && TailMarks(u) == TailMarks(t);
      assert "" + (Body(u) + TailMarks(u)) == Body(u) + TailMarks(u);
    }
  }

  lemma HatFirst(t: Ty)
    requires IsPointer(t) && !t.a.c
    ensures ToString(t) != "" && IsSigil(ToString(t)[0]) && ToString(t)[0] == HatSigil(t.wrapper, t.a.n)[0]
  {
    assert HatText(t.a, t.wrapper) == "" + (HatSigil(t.wrapper, t.a.n) + HatMarkText(t.a));
  }

  lemma UncededUnkeyed(t: Ty, rest: string)
    requires Printable(t) && !Ceded(t) && (rest == "" || rest[0] == '|')
    ensures !HasKeyword(ToString(t) + rest)
  {
    if IsPointer(t) {
      HatFirst(t);
      SymbolUnkeyed(ToString(t) + rest);
    } else {
      BodyUnkeyed(t);
      TailIsMarks(t);
      BodyTight(t);
      BareAtFront(Body(t), TailMarks(t), rest);
      MoreUnkeyed(Body(t), TailMarks(t) + rest);
    }
  }

  lemma BareAtFront(body: string, marks: string, rest: string)
    ensures "" + (body + marks) + rest == body + (marks + rest)
  {
    assert "" + (body + marks) == body + marks;
    Regroup(body, marks, rest);
  }

  /** Marks or a bar behind a text without a keyword make none. */
  lemma MoreUnkeyed(s: string, rest: string)
    requires s != "" && !HasKeyword(s) && (rest == "" || rest[0] == '|' || rest[0] == '#' || rest[0] == '$')
    ensures !HasKeyword(s + rest)
  {
    PrefixStays(s, rest, "cede ");
    PrefixStays(s, rest, "nul ");
    PrefixStays(s, rest, "nul*");
    PrefixStays(s, rest, "nul^");
    PrefixStays(s, rest, "nul~");
    PrefixStays(s, rest, "nul&");
    NulSpelled(s);
    NulSpelled(s + rest);
  }

  lemma NulSpelled(s: string)
    ensures StartsWith(s, "nul") && |s| > 3 ==> s[..4] == "nul" + [s[3]]
    ensures StartsWith(s, "nul*") || StartsWith(s, "nul^") || StartsWith(s, "nul~") || StartsWith(s, "nul&") ==>
      StartsWith(s, "nul") && |s| > 3 && (s[3] == '*' || s[3] == '^' || s[3] == '~' || s[3] == '&')
    ensures StartsWith(s, "nul") && |s| > 3 && (s[3] == '*' || s[3] == '^' || s[3] == '~' || s[3] == '&') ==>
      StartsWith(s, "nul*") || StartsWith(s, "nul^") || StartsWith(s, "nul~") || StartsWith(s, "nul&")
  {
    if |s| > 3 {
      assert s[..4] == s[..3] + [s[3]] && s[..3] == s[..4][..3];
    }
  }

  lemma PrefixStays(s: string, rest: string, word: string)
    requires s != "" && (rest == "" || (rest[0] !in word))
    ensures StartsWith(s + rest, word) ==> StartsWith(s, word)
  {
    if rest == "" {
      assert s + rest == s;
    } else if |s| < |word| {
      DiffersAt(s + rest, word, |s|);
    } else {
      assert (s + rest)[..|word|] == s[..|word|];
    }
  }

  /** The two spellings of an outcome's end. */
  function MissText(blank: bool): string {
    if blank then "| miss" else "|miss"
  }

  lemma MissEnds(text: string, n: nat, blank: bool)
    requires 0 < n <= |text| && text[n..] == MissText(blank) && text[0] != ' '
    ensures Trim(text) == text && StripMarks(text) == Marked(text, false, false, false) && MissCut(text) == n
  {
    assert text[|text| - 1] == text[n..][|MissText(blank)| - 1] == 's';
    TrimTight(text);
    if blank {
      assert text[|text| - 5..] == text[n..][1..];
      assert text[|text| - 5..][0] == ' ';
    }
  }

  lemma OutcomeText(s: string, blank: bool)
    requires s != "" && s[0] != ' '
    ensures var text := s + MissText(blank);
      && Trim(text) == text && StripMarks(text) == Marked(text, false, false, false)
      && MissCut(text) == |s| && text[..|s|] == s
  {
    var text := s + MissText(blank);
    assert text[|s|..] == MissText(blank) && text[0] == s[0];
    MissEnds(text, |s|, blank);
  }

  lemma OutcomeUnmarked(s: string, blank: bool)
    requires s != "" && s[0] != ' ' && '-' !in s
    ensures var text := s + MissText(blank); FromString(text) == FromUnmarked(text, false, false, text)
  {
    OutcomeText(s, blank);
    assert '-' !in MissText(blank);
    NoLifetime(s + MissText(blank), 0, 0);
  }

  lemma OutcomeBody(s: string, a: Attr, blank: bool)
    requires s != "" && s[0] != ' ' && !a.n
    ensures FromBody(s + MissText(blank), a) == Wrap(a, Miss, FromString(s))
  {
    OutcomeText(s, blank);
  }

  /** An outcome's text is read as an outcome in both spellings; a leading "cede " becomes its own. */
  lemma OutcomeRead(inner: Ty, blank: bool)
    requires Printable(inner) && Flat(inner)
    ensures FromString(ToString(inner) + MissText(blank)) == Wrap(PLAIN.(c := Ceded(inner)), Miss, Unceded(inner))
  {
    var full, bare := ToString(inner) + MissText(blank), ToString(Unceded(inner));
    CedeInFront(inner);
    TextEnds(Unceded(inner));
    TextEnds(inner);
    TextClean(inner);
    OutcomeUnmarked(ToString(inner), blank);
    UncededUnkeyed(Unceded(inner), MissText(blank));
    Regroup(Mark(Ceded(inner), "cede "), bare, MissText(blank));
    OutcomeText(bare, blank);
    OutcomeCedeStripped(Ceded(inner), bare + MissText(blank), full);
    OutcomeBody(bare, PLAIN.(c := Ceded(inner)), blank);
    StringBridge(Unceded(inner));
  }

  lemma CededIff(t: Ty)
    requires Printable(t)
    ensures Ceded(t) <==> t.a.c
  {
  }

  lemma OutcomeCedeStripped(cede: bool, s: string, raw: string)
    requires s != "" && s[0] != ' ' && s[|s| - 1] != ' ' && !HasKeyword(s)
    ensures FromUnmarked(Mark(cede, "cede ") + s, false, false, raw) == FromBody(s, Attr(false, false, false, cede))
  {
    TrimTight(s);
    if cede {
      assert ("cede " + s)[5..] == s && ("cede " + s)[..5] == "cede ";
    } else {
      assert "" + s == s;
    }
  }

  /** An outcome survives exactly when it is unmarked and its item does not begin with "cede ". */
  lemma OutcomeRoundTripIff(t: Ty)
    requires t.Wrap? && t.wrapper.Miss? && Printable(t.inner) && Flat(t.inner)
    ensures FromString(ToString(t)) == t <==> t.a == PLAIN && !Ceded(t.inner)
  {
    var text := ToString(t.inner) + "|miss";
    assert Body(t) == text && TailMarks(t) == "" && !SaysCede(t);
    assert text + "" == text && "" + text == text;
    OutcomeRead(t.inner, false);
    CededIff(t.inner);
  }

  // ---------------------------------------------------------------- other spellings

  lemma {:induction false} TrimRightConcat(p: string, q: string)
    requires p != "" && p[|p| - 1] != ' '
    ensures TrimRight(p + q) == p + TrimRight(q)
  {
    if q == "" {
      assert p + q == p;
    } else if q[|q| - 1] == ' ' {
      assert (p + q)[..|p + q| - 1] == p + q[..|q| - 1];
      TrimRightConcat(p, q[..|q| - 1]);
    }
  }

  lemma {:induction false} LifetimeAfter(s: string, i: nat, p: string, balance: int)
    requires i + |p| < |s| && s[i..i + |p|] == p && '-' !in p && s[i + |p|] != '-'
    ensures LifetimeCut(s, i, balance) == LifetimeCut(s, i + |p|, balance + Brackets(p))
    decreases |p|
  {
    if p != "" {
      assert s[i] == p[0] && s[i + 1..i + 1 + |p[1..]|] == p[1..];
      assert |p| > 1 ==> s[i + 1] == p[1] && p[1] in p;
      assert forall c | c in p[1..] :: c in p;
      LifetimeAfter(s, i + 1, p[1..], balance + Bracket(p[0]));
    }
  }

  lemma LifetimeTaken(front: string, more: string)
    requires '-' !in front && Brackets(front) == 0
    ensures LifetimeCut(front + ("<-" + more), 0, 0) == |front|
  {
    var s := front + ("<-" + more);
    assert s[0..|front|] == front && s[|front|] == '<' && s[|front| + 1] == '-';
    LifetimeAfter(s, 0, front, 0);
  }

  lemma BlankTrimmed(text: string, blank: bool)
    requires text != "" && text[0] != ' ' && text[|text| - 1] != ' '
    ensures Trim(text + Mark(blank, " ")) == text
  {
    TrimTight(text);
    if blank {
      assert (text + " ")[..|text|] == text;
      assert TrimLeft(text + " ") == text + " ";
    } else {
      assert text + "" == text;
    }
  }

  /** A lifetime behind a type, even behind its marks, is taken off. */
  lemma LifetimeRead(t: Ty, dep: string, blank: bool)
    requires Printable(t) && Flat(t)
    ensures FromString(ToString(t) + Mark(blank, " ") + ("<-" + dep)) == t
  {
    TextHolds(t);
    TextClean(t);
    TextEnds(t);
    FrontFits(ToString(t), blank);
    LifetimeTrimmed(ToString(t), ToString(t) + Mark(blank, " "), dep);
    RoundTrip(t);
  }

  lemma FrontFits(text: string, blank: bool)
    requires Holds(text, 0) && '-' !in text && text != "" && text[0] != ' ' && text[|text| - 1] != ' '
    ensures var front := text + Mark(blank, " ");
      front != "" && front[0] != ' ' && Trim(front) == text && '-' !in front && Brackets(front) == 0
  {
    PlainHolds(Mark(blank, " "));
    HoldsConcat(text, Mark(blank, " "), 0);
    BlankTrimmed(text, blank);
  }

  lemma LifetimeTrimmed(text: string, front: string, dep: string)
    requires front != "" && front[0] != ' ' && Trim(front) == text && '-' !in front && Brackets(front) == 0
    requires text != "" && '-' !in text
    ensures var raw := front + ("<-" + dep); FromString(raw) == FromTrimmed(text, raw)
  {
    DependencyTrimmed(front, dep);
    LifetimeStripped(front, TrimRight(dep));
    NoLifetime(text, 0, 0);
    SameStripped(front + ("<-" + TrimRight(dep)), text, front + ("<-" + dep));
  }

  lemma LifetimeStripped(front: string, more: string)
    requires '-' !in front && Brackets(front) == 0
    ensures StripLifetime(front + ("<-" + more)) == Trim(front)
  {
    LifetimeTaken(front, more);
    assert (front + ("<-" + more))[..|front|] == front;
  }

  lemma SameStripped(s: string, text: string, raw: string)
    requires s != "" && text != "" && StripLifetime(s) == StripLifetime(text)
    ensures FromTrimmed(s, raw) == FromTrimmed(text, raw)
  {
  }

  lemma DependencyTrimmed(front: string, dep: string)
    requires front != "" && front[0] != ' '
    ensures Trim(front + ("<-" + dep)) == front + ("<-" + TrimRight(dep))
  {
    Regroup(front, "<-", dep);
    Regroup(front, "<-", TrimRight(dep));
    TrimRightConcat(front + "<-", dep);
  }

  lemma NulMarks(prefix: string, t: Ty)
    requires Printable(t) && (prefix == "nul " || prefix == "nul")
    ensures var s := prefix + ToString(t);
      && Trim(s) == s
      && StripMarks(StripLifetime(s))
         == Marked(prefix + ToString(StripSoul(t)), '#' in SoulMarks(t), false, '$' in SoulMarks(t))
  {
    SoulSplit(t);
    SoulStripped(t);
    TextEnds(t);
    TextEnds(StripSoul(t));
    TextClean(t);
    PrefixedMarks(prefix, ToString(StripSoul(t)), SoulMarks(t));
  }

  lemma PrefixedMarks(prefix: string, bare: string, marks: string)
    requires prefix == "nul " || prefix == "nul"
    requires bare != "" && LastOk(bare[|bare| - 1]) && AllMarks(marks) && '-' !in bare + marks
    ensures var s := prefix + (bare + marks);
      Trim(s) == s && StripMarks(StripLifetime(s)) == Marked(prefix + bare, '#' in marks, false, '$' in marks)
  {
    var s, front := prefix + (bare + marks), prefix + bare;
    Regroup(prefix, bare, marks);
    LastOfMarked(front, marks);
    assert s[0] == 'n';
    TrimTight(s);
    assert '-' !in prefix;
    NoLifetime(s, 0, 0);
    MarksStripped(front, marks);
  }

  lemma LastOfMarked(s: string, marks: string)
    requires s != "" && LastOk(s[|s| - 1]) && AllMarks(marks)
    ensures (s + marks)[|s + marks| - 1] != ' '
  {
    assert marks != "" ==> marks[|marks| - 1] in marks;
  }

  /** Behind the words, the text must begin with the sigil of a raw pointer. */
  lemma NulUnmarked(prefix: string, s: string, w: bool, b: bool, raw: string)
    requires s != "" && s[0] != ' ' && s[|s| - 1] != ' '
    requires prefix == "nul " || (prefix == "nul" && s[0] == '*')
    ensures FromUnmarked(prefix + s, w, b, raw)
         == if s[0] == '*' then FromBody(s, Attr(w, true, b, false)) else Atom(PLAIN, Unresolved(raw))
  {
    var text := prefix + s;
    assert text[0] == 'n' && text[..|prefix|] == prefix && text[|prefix|..] == s;
    DiffersAt(text, "cede ", 0);
    if prefix == "nul" {
      assert text[3] == '*';
      DiffersAt(text, "nul ", 3);
    }
    TrimTight(s);
  }

  lemma RawFirst(t: Ty)
    requires Printable(t)
    ensures ToString(t) != "" && (ToString(t)[0] == '*' <==> IsRaw(t) && !t.a.n && !t.a.c)
  {
    TextEnds(t);
    if IsPointer(t) {
      if t.a.c {
        CedeInFront(t);
      } else {
        HatFirst(t);
      }
    } else {
      BodyTight(t);
      BodyFirst(t);
      assert ToString(t) == Mark(SaysCede(t), "cede ") + (Body(t) + TailMarks(t));
    }
  }

  lemma BodyFirst(t: Ty)
    requires Printable(t) && !IsPointer(t)
    ensures Body(t) != "" && !IsSigil(Body(t)[0])
  {
    match t
    case Atom(_, leaf) =>
      if leaf.Primitive? {
        ReservedIsName(leaf.name);
        assert leaf.name[0] in leaf.name;
      }
    case Wrap(_, _, _) =>
    case Array(_, _, _, _) =>
    case Shape(_, name, _, _, _) => assert Body(t)[0] == name[0] && name[0] in name;
  }

  lemma NulBody(t: Ty, w: bool, b: bool)
    requires Printable(t) && Flat(t) && IsRaw(t) && !t.a.n && !t.a.c && SoulBare(t)
    ensures FromBody(ToString(t), Attr(w, true, b, false)) == SetAttr(Annotated(t, w, b), t.a.(n := true))
  {
    HandleBodyRead(t);
    assert "" + HandleBody(t) == HandleBody(t);
    NotCallable(ToString(t), Attr(w, true, b, false));
    TextEnds(t.inner);
    NulHandle(t.a, ToString(t.inner), Attr(w, true, b, false));
    StringBridge(t.inner);
    assert HatSigil(t.wrapper, t.a.n) == "*";
  }

  lemma NulHandle(a: Attr, inner: string, outer: Attr)
    requires inner != "" && FirstOk(inner[0]) && outer.n && !outer.c
    ensures FromRest("*" + HatMarkText(a) + inner, outer)
         == Wrap(Attr(a.w, true, a.b, false), Raw,
                 if outer.w || outer.b then ApplySoul(FromString(inner), outer.w, outer.b) else FromString(inner))
  {
    var s, n := "*" + HatMarkText(a) + inner, 1 + |HatMarkText(a)|;
    HatPlaces("*", HatMarkText(a), inner);
    HatMarksRead(s, a, n);
    SigilRead(s, outer, n, a.w, a.b);
  }

  predicate IsPlainRaw(t: Ty) {
    IsRaw(t) && !t.a.n && !t.a.c
  }

  lemma NulPrefixed(prefix: string, t: Ty)
    requires Printable(t) && Flat(t) && (prefix == "nul " || (prefix == "nul" && IsPlainRaw(t)))
    ensures FromString(prefix + ToString(t)) ==
      if IsPlainRaw(t) then SetAttr(t, t.a.(n := true)) else Atom(PLAIN, Unresolved(prefix + ToString(t)))
  {
    NulReached(prefix, t);
    if IsPlainRaw(t) {
      NulRestored(t);
    }
  }

  lemma NulReached(prefix: string, t: Ty)
    requires Printable(t) && (prefix == "nul " || (prefix == "nul" && IsPlainRaw(t)))
    ensures FromString(prefix + ToString(t)) ==
      if IsPlainRaw(t) then
        FromBody(ToString(StripSoul(t)), Attr('#' in SoulMarks(t), true, '$' in SoulMarks(t), false))
      else Atom(PLAIN, Unresolved(prefix + ToString(t)))
  {
    var text, w, b, raw := ToString(StripSoul(t)), '#' in SoulMarks(t), '$' in SoulMarks(t), prefix + ToString(t);
    StrippedFirst(t);
    NulMarks(prefix, t);
    NulTrimmed(raw, prefix + text, w, b);
    NulUnmarked(prefix, text, w, b, raw);
  }

  lemma StrippedFirst(t: Ty)
    requires Printable(t)
    ensures var text := ToString(StripSoul(t));
      text != "" && text[0] != ' ' && text[|text| - 1] != ' ' && (text[0] == '*' <==> IsPlainRaw(t))
  {
    SoulStripped(t);
    TextEnds(StripSoul(t));
    RawFirst(StripSoul(t));
  }

  lemma NulRestored(t: Ty)
    requires Printable(t) && Flat(t) && IsPlainRaw(t)
    ensures FromBody(ToString(StripSoul(t)), Attr('#' in SoulMarks(t), true, '$' in SoulMarks(t), false))
         == SetAttr(t, t.a.(n := true))
  {
    SoulStripped(t);
    NulBody(StripSoul(t), '#' in SoulMarks(t), '$' in SoulMarks(t));
    SoulRestored(t);
  }

  lemma NulTrimmed(raw: string, body: string, w: bool, b: bool)
    requires raw != "" && body != "" && Trim(raw) == raw && StripMarks(StripLifetime(raw)) == Marked(body, w, false, b)
    ensures FromString(raw) == FromUnmarked(body, w, b, raw)
  {
  }

  /** "nul" in front of a raw pointer makes it may-zero; in front of any other printed type it makes the
      text unreadable. */
  lemma NulRead(t: Ty)
    requires Printable(t) && Flat(t)
    ensures FromString("nul " + ToString(t)) ==
      if IsPlainRaw(t) then SetAttr(t, t.a.(n := true)) else Atom(PLAIN, Unresolved("nul " + ToString(t)))
    ensures IsPlainRaw(t) ==> FromString("nul" + ToString(t)) == SetAttr(t, t.a.(n := true))
  {
    NulPrefixed("nul ", t);
    if IsPlainRaw(t) {
      NulPrefixed("nul", t);
    }
  }

  /** A trailing '?' makes any text unreadable: only a sigil says that a raw pointer may be zero. */
  lemma MayZeroSuffix(t: Ty)
    requires Printable(t)
    ensures FromString(ToString(t) + "?") == Atom(PLAIN, Unresolved(ToString(t) + "?"))
  {
    var text := ToString(t);
    TextEnds(t);
    TextClean(t);
    TrimTight(text + "?");
    NoLifetime(text + "?", 0, 0);
    assert (text + "?")[..|text + "?"| - 1] == text;
  }

  predicate Blanks(s: string) {
    forall c | c in s :: c == ' '
  }

  lemma {:induction false} LeftTrimmed(before: string, s: string)
    requires Blanks(before) && s != "" && s[0] != ' '
    ensures TrimLeft(before + s) == s
  {
    if before == "" {
      assert before + s == s;
    } else {
      assert before[0] in before && forall c | c in before[1..] :: c in before;
      assert (before + s)[1..] == before[1..] + s;
      LeftTrimmed(before[1..], s);
    }
  }

  lemma {:induction false} BlanksGone(s: string)
    requires Blanks(s)
    ensures TrimRight(s) == ""
  {
    if s != "" {
      assert s[|s| - 1] in s && forall i | 0 <= i < |s| - 1 :: s[..|s| - 1][i] == s[i] && s[i] in s;
      BlanksGone(s[..|s| - 1]);
    }
  }

  /** Blanks around a type mean nothing. */
  lemma BlanksIgnored(t: Ty, before: string, after: string)
    requires Printable(t) && Flat(t) && Blanks(before) && Blanks(after)
    ensures FromString(before + (ToString(t) + after)) == t
  {
    var text := ToString(t);
    TextEnds(t);
    LeftTrimmed(before, text + after);
    TrimRightConcat(text, after);
    BlanksGone(after);
    assert text + "" == text;
    RoundTrip(t);
  }

  /** What std::stoull makes of digits: a sign in front, with '-' wrapping around, and anything behind. */
  lemma SignedNumber(sign: string, n: nat, behind: string)
    requires (sign == "" || sign == "+" || sign == "-") && (behind == "" || !IsDigit(behind[0]))
    ensures ParseUInt64(sign + (Decimal(n) + behind)) ==
      if n >= LIMIT64 then None else if sign == "-" then Some((LIMIT64 - n) % LIMIT64) else Some(n)
  {
    var digits := Decimal(n) + behind;
    var s := sign + digits;
    assert IsDigit(Decimal(n)[0]);
    assert s[0] == if sign == "" then Decimal(n)[0] else sign[0];
    assert sign != "" ==> s[1..] == digits;
    assert sign == "" ==> s == digits;
    NoSpace(s);
    RunOf(Decimal(n), behind);
    DecimalRoundTrip(n);
    assert digits[..|Decimal(n)|] == Decimal(n);
  }

  lemma NoSpace(s: string)
    requires s != "" && (IsDigit(s[0]) || s[0] == '+' || s[0] == '-')
    ensures SkipSpace(s) == s
  {
  }

  lemma {:induction false} RunOf(s: string, behind: string)
    requires AllDigits(s) && (behind == "" || !IsDigit(behind[0]))
    ensures DigitRun(s + behind) == |s|
  {
    if s == "" {
      assert s + behind == behind;
    } else {
      assert (s + behind)[1..] == s[1..] + behind;
      RunOf(s[1..], behind);
    }
  }
}
