/** The legacy string bridge: the printer toString and the hand-written parser fromString. */
module TypeString {
  import opened Text
  import opened Types

  // ---------------------------------------------------------------- printing

  function Mark(on: bool, mark: string): string {
    if on then mark else ""
  }

  function HatSigil(w: Wrapper, mayZero: bool): string {
    match w
    case Raw => if mayZero then "?" else "*"
    case Unique => "^"
    case Shared => "~"
    case _ => "&"
  }

  /** A handle chain prints its hats outside in; every other type is a body between a leading
      "cede " and its trailing marks. */
  function ToString(t: Ty): string
    decreases t, 2
  {
    if IsPointer(t) then HatText(t.a, t.wrapper) + ToString(t.inner)
    else Mark(SaysCede(t), "cede ") + (Body(t) + TailMarks(t))
  }

  function HatText(a: Attr, w: Wrapper): string {
    Mark(a.c, "cede ") + (HatSigil(w, a.n) + HatMarkText(a))
  }

  function HatMarkText(a: Attr): string {
    Mark(a.w, "#") + Mark(a.b, "$")
  }

  predicate SaysCede(t: Ty) {
    match t
    case Atom(a, leaf) => a.c && leaf.Primitive?
    case Wrap(a, wrapper, _) => a.c && (wrapper.Slice? || wrapper.Uninit?)
    case Array(a, _, _, _) => a.c
    case Shape(a, _, _, _, _) => a.c
    case Callable(_, _, _, _, mode) => mode.ConsumingCall?
  }

  /** Primitives print '$' before '#', the structured types '#' before '$'. */
  function TailMarks(t: Ty): string {
    match t
    case Atom(a, leaf) => if leaf.Primitive? then Mark(a.b, "$") + Mark(a.w, "#") else ""
    case Wrap(a, wrapper, _) => if wrapper.Slice? || wrapper.Uninit? then HatMarkText(a) else ""
    case Array(a, _, _, _) => HatMarkText(a)
    case Shape(a, _, _, _, _) => HatMarkText(a)
    case Callable(a, _, _, _, _) => Mark(a.w, "#")
  }

  /** The two wrappers that print as generics. */
  function GenericName(w: Wrapper): string {
    if w.Uninit? then "Uninit" else "__PlaceOutcome"
  }

  function Body(t: Ty): string
    decreases t, 1
  {
    match t
    case Atom(_, leaf) => (match leaf
      case Primitive(name) => name
      case Unit => "()"
      case Void => "void"
      case Never => "never"
      case Unresolved(name) => "Unresolved(" + name + ")")
    case Wrap(_, wrapper, inner) => (match wrapper
      case Slice => "[" + ToString(inner) + "]"
      case Miss => ToString(inner) + "|miss"
      case Uninit => GenericName(wrapper) + ("<" + ToString(inner) + ">")
      case Place => GenericName(wrapper) + ("<" + ToString(inner) + ">")
      case _ => "")
    case Array(_, elem, size, extent) =>
      "[" + ToString(elem) + "; " + (if extent == "" then Decimal(size) else extent) + "]"
    case Shape(_, name, args, variant, _) =>
      name + GenericText(args) + variant
    case Callable(_, form, params, ret, mode) =>
      Mark(form.DynFn?, "dyn ") + (if mode.MutableCall? then "fn#(" else "fn(") + Joined(params) +
      Mark(form.PlainFn? && form.variadic, ", ...") + ")" +
      (if ret.Atom? && ret.leaf.Void? then "" else " -> " + ToString(ret))
  }

  function GenericText(args: seq<Ty>): string
    decreases args, 1
  {
    if args == [] then "" else "<" + Joined(args) + ">"
  }

  function Joined(ts: seq<Ty>): string
    decreases ts, 0
  {
    if ts == [] then ""
    else if |ts| == 1 then ToString(ts[0])
    else ToString(ts[0]) + ", " + Joined(ts[1..])
  }

  // ---------------------------------------------------------------- text scanning

  function TrimLeft(s: string): (r: string)
    ensures |r| <= |s|
  {
    if s != "" && s[0] == ' ' then TrimLeft(s[1..]) else s
  }

  function TrimRight(s: string): (r: string)
    ensures |r| <= |s|
  {
    if s != "" && s[|s| - 1] == ' ' then TrimRight(s[..|s| - 1]) else s
  }

  /** Blanks at both ends go, but a text of blanks alone is returned as it is. */
  function Trim(s: string): (r: string)
    ensures |r| <= |s|
  {
    if TrimLeft(s) == "" then s else TrimRight(TrimLeft(s))
  }

  predicate IsBlank(c: char) {
    c == ' ' || c == '\t' || c == '\r' || c == '\n'
  }

  function TrimBlanks(s: string): (r: string)
    ensures |r| <= |s|
  {
    if s != "" && IsBlank(s[0]) then TrimBlanks(s[1..])
    else if s != "" && IsBlank(s[|s| - 1]) then TrimBlanks(s[..|s| - 1])
    else s
  }

  /** The first place of c at or after i, or the length. */
  function Find(s: string, c: char, i: nat): (k: nat)
    requires i <= |s|
    ensures i <= k <= |s|
    ensures k < |s| ==> s[k] == c
    ensures forall j | i <= j < k :: s[j] != c
    decreases |s| - i
  {
    if i == |s| || s[i] == c then i else Find(s, c, i + 1)
  }

  /** The last place of c before end, or -1. */
  function FindLast(s: string, c: char, end: nat): (k: int)
    requires end <= |s|
    ensures -1 <= k < end
    ensures k >= 0 ==> s[k] == c
    ensures forall j | k < j < end :: s[j] != c
  {
    if end == 0 then -1 else if s[end - 1] == c then end - 1 else FindLast(s, c, end - 1)
  }

  /** The first place of the two characters c, d at or after i, or the length. */
  function FindPair(s: string, c: char, d: char, i: nat): (k: nat)
    requires i <= |s|
    ensures i <= k <= |s|
    ensures k < |s| ==> k + 2 <= |s| && s[k] == c && s[k + 1] == d
    decreases |s| - i
  {
    if i + 1 >= |s| then |s| else if s[i] == c && s[i + 1] == d then i else FindPair(s, c, d, i + 1)
  }

  predicate EndsWith(s: string, suffix: string) {
    |suffix| <= |s| && s[|s| - |suffix|..] == suffix
  }

  function DigitRun(s: string): (k: nat)
    ensures k <= |s| && AllDigits(s[..k])
    ensures k < |s| ==> !IsDigit(s[k])
  {
    if s != "" && IsDigit(s[0]) then
      assert forall k | 0 < k <= |s| :: s[..k] == [s[0]] + s[1..][..k - 1];
      1 + DigitRun(s[1..])
    else 0
  }

  function SkipSpace(s: string): (r: string)
    ensures |r| <= |s|
  {
    if s != "" && (IsBlank(s[0]) || s[0] == '\U{000B}' || s[0] == '\U{000C}') then SkipSpace(s[1..]) else s
  }

  /** std::stoull: leading space, an optional sign, the longest run of digits; None where it throws. */
  function ParseUInt64(s: string): (n: Option<nat>)
    ensures n.Some? ==> n.value < LIMIT64
  {
    var body := SkipSpace(s);
    var signed := body != "" && (body[0] == '+' || body[0] == '-');
    var digits := if signed then body[1..] else body;
    var run := DigitRun(digits);
    if run == 0 || DecimalValue(digits[..run]) >= LIMIT64 then None
    else if signed && body[0] == '-' then Some((LIMIT64 - DecimalValue(digits[..run])) % LIMIT64)
    else Some(DecimalValue(digits[..run]))
  }

  // ---------------------------------------------------------------- parsing

  /** Where a top-level lifetime dependency "<-" begins, or the length. */
  function LifetimeCut(s: string, i: nat, balance: int): (k: nat)
    requires i <= |s|
    ensures i <= k <= |s|
    decreases |s| - i
  {
    if i == |s| then i
    else if balance == 0 && i + 1 < |s| && s[i] == '<' && s[i + 1] == '-' then i
    else LifetimeCut(s, i + 1, balance + Bracket(s[i]))
  }

  function Bracket(c: char): int {
    if c == '<' || c == '(' || c == '[' then 1 else if c == '>' || c == ')' || c == ']' then -1 else 0
  }

  function StripLifetime(s: string): (r: string)
    ensures |r| <= |s|
  {
    var cut := LifetimeCut(s, 0, 0);
    if cut < |s| then Trim(s[..cut]) else s
  }

  datatype Marked = Marked(body: string, w: bool, n: bool, b: bool)

  /** Trailing '#', '?', '$' and blanks belong to the outermost type. */
  function StripMarks(s: string): (m: Marked)
    ensures |m.body| <= |s|
  {
    if s == "" then Marked(s, false, false, false)
    else
      var last := s[|s| - 1];
      if last == '#' then StripMarks(s[..|s| - 1]).(w := true)
      else if last == '?' then StripMarks(s[..|s| - 1]).(n := true)
      else if last == '$' then StripMarks(s[..|s| - 1]).(b := true)
      else if last == ' ' then StripMarks(s[..|s| - 1])
      else Marked(s, false, false, false)
  }

  /** The marks between a sigil and its pointee. */
  function HatMarks(s: string, i: nat): (m: (nat, bool, bool))
    requires i <= |s|
    ensures i <= m.0 <= |s|
    decreases |s| - i
  {
    if i < |s| && s[i] == '#' then var m := HatMarks(s, i + 1); (m.0, true, m.2)
    else if i < |s| && s[i] == '$' then var m := HatMarks(s, i + 1); (m.0, m.1, true)
    else (i, false, false)
  }

  /** The marks after a complete handle chain belong to its deepest soul. */
  function ApplySoul(t: Ty, w: bool, b: bool): Ty {
    if IsPointer(t) then Wrap(t.a.(n := t.a.n && t.wrapper.Raw?), t.wrapper, ApplySoul(t.inner, w, b))
    else WithAttributes(t, w, false, b)
  }

  /** Where the parameter list that begins at i ends, or the length. */
  function ParamsEnd(s: string, i: nat, depth: nat): (k: nat)
    requires i <= |s|
    ensures i <= k <= |s|
    decreases |s| - i
  {
    if i == |s| then i
    else if s[i] == '(' then ParamsEnd(s, i + 1, depth + 1)
    else if s[i] == ')' then (if depth == 0 then i else ParamsEnd(s, i + 1, depth - 1))
    else ParamsEnd(s, i + 1, depth)
  }

  /** Parameters are cut at commas outside every bracket; `cur` is the piece read so far. */
  function SplitParams(s: string, cur: string, balance: int): (pieces: seq<string>)
    ensures forall p | p in pieces :: |p| <= |cur| + |s|
    decreases |s|
  {
    if s == "" then (if cur == "" then [] else [cur])
    else if s[0] == ',' && balance == 0 then [cur] + SplitParams(s[1..], "", 0)
    else SplitParams(s[1..], cur + [s[0]], balance + Bracket(s[0]))
  }

  /** Generic arguments are cut at commas outside angle brackets; "<-" is stepped over. */
  function SplitArgs(s: string, cur: string, balance: int): (pieces: seq<string>)
    ensures forall p | p in pieces :: |p| <= |cur| + |s|
    decreases |s|
  {
    if s == "" then (if cur == "" then [] else [cur])
    else if s[0] == '<' && |s| > 1 && s[1] == '-' then SplitArgs(s[2..], cur + s[..2], balance)
    else if s[0] == ',' && balance == 0 then [cur] + SplitArgs(s[1..], "", 0)
    else SplitArgs(s[1..], cur + [s[0]], balance + Angle(s[0]))
  }

  function Angle(c: char): int {
    if c == '<' then 1 else if c == '>' then -1 else 0
  }

  function FromString(raw: string): Ty
    decreases |raw|, 7
  {
    FromTrimmed(Trim(raw), raw)
  }

  function FromTrimmed(s: string, raw: string): Ty
    decreases |s|, 6
  {
    if s == "" then Atom(PLAIN, Unit)
    else
      var m := StripMarks(StripLifetime(s));
      if m.body == "" || m.n then Atom(PLAIN, Unresolved(raw))
      else FromUnmarked(m.body, m.w, m.b, raw)
  }

  /** The prefixes "cede " and "nul", in this order. */
  function FromUnmarked(s: string, w: bool, b: bool, raw: string): Ty
    decreases |s|, 5
  {
    var cede := StartsWith(s, "cede ");
    var s1 := if cede then Trim(s[5..]) else s;
    var spaced := StartsWith(s1, "nul ");
    var glued := StartsWith(s1, "nul") && |s1| > 3 && (s1[3] == '*' || s1[3] == '^' || s1[3] == '~' || s1[3] == '&');
    var s2 := if spaced then Trim(s1[4..]) else if glued then Trim(s1[3..]) else s1;
    if s2 == "" || ((spaced || glued) && s2[0] != '*') then Atom(PLAIN, Unresolved(raw))
    else FromBody(s2, Attr(w, spaced || glued, b, cede))
  }

  function MissCut(s: string): (k: nat)
    ensures k <= |s|
  {
    if |s| > 5 && EndsWith(s, "|miss") then |s| - 5
    else if |s| > 6 && EndsWith(s, "| miss") then |s| - 6
    else |s|
  }

  /** A mutable callable loses its '#' before the rest of the parser looks at it. */
  function DropCallMark(s: string): (r: (string, bool))
    requires s != ""
    ensures 0 < |r.0| <= |s|
  {
    if StartsWith(s, "dyn fn#(") then (s[..6] + s[7..], true)
    else if StartsWith(s, "dynfn#(") then (s[..5] + s[6..], true)
    else if StartsWith(s, "fn#(") then (s[..2] + s[3..], true)
    else (s, false)
  }

  function FromBody(s: string, a: Attr): Ty
    requires s != ""
    decreases |s|, 4, 1
  {
    var cut := MissCut(s);
    if cut < |s| then Wrap(a.(n := false), Miss, FromString(s[..cut]))
    else var (s', mutable) := DropCallMark(s); FromCall(s', a, mutable)
  }

  /** The callable forms, or the rest of the parser. */
  function FromCall(s: string, a: Attr, mutable: bool): Ty
    requires s != ""
    decreases |s|, 4, 0
  {
    var mode := if a.c then ConsumingCall else if mutable then MutableCall else SharedCall;
    var start := if StartsWith(s, "dyn fn(") then 7 else if StartsWith(s, "dynfn(") then 6 else 0;
    var dynEnd := ParamsEnd(s, start, 0);
    if start > 0 && dynEnd < |s| then
      Callable(a.(n := false), DynFn, FromSignature(s[start..dynEnd], true), FromResult(s, dynEnd), mode)
    else
      var isFn := StartsWith(s, "fn(");
      var fnEnd := if isFn then ParamsEnd(s, 3, 0) else |s|;
      if isFn && fnEnd < |s| then
        Callable(a.(n := false), PlainFn(SaysVariadic(s[3..fnEnd])), FromSignature(s[3..fnEnd], false),
                 FromResult(s, fnEnd), mode)
      else FromRest(s, a)
  }

  /** An empty parameter is dropped, and so is "...", except that a dynamic callable takes it for a type. */
  function KeepParam(p: string, dyn: bool): (kept: seq<string>)
    ensures kept == [] || kept == [p]
  {
    if p == "" || (!dyn && p == "...") then [] else [p]
  }

  function KeptParams(pieces: seq<string>, dyn: bool, bound: nat): (kept: seq<string>)
    requires forall p | p in pieces :: |p| <= bound
    ensures forall p | p in kept :: |p| <= bound
  {
    if pieces == [] then [] else KeepParam(Trim(pieces[0]), dyn) + KeptParams(pieces[1..], dyn, bound)
  }

  predicate SaysVariadic(inside: string) {
    exists p | p in SplitParams(inside, "", 0) :: Trim(p) == "..."
  }

  function FromSignature(inside: string, dyn: bool): seq<Ty>
    decreases |inside|, 9
  {
    FromPieces(KeptParams(SplitParams(inside, "", 0), dyn, |inside|), |inside|)
  }

  function FromResult(s: string, end: nat): Ty
    requires end < |s|
    decreases |s|, 0
  {
    var arrow := FindPair(s, '-', '>', end);
    if arrow < |s| then FromString(Trim(s[arrow + 2..])) else Atom(PLAIN, Unit)
  }

  predicate IsSigil(c: char) {
    c == '*' || c == '?' || c == '^' || c == '~' || c == '&'
  }

  function SigilHat(c: char): Wrapper {
    if c == '*' || c == '?' then Raw else if c == '^' then Unique else if c == '~' then Shared else Ref
  }

  function FromRest(s: string, a: Attr): Ty
    requires s != ""
    decreases |s|, 3
  {
    if IsSigil(s[0]) then
      var (offset, w, b) := HatMarks(s, 1);
      var pointee := FromString(s[offset..]);
      Wrap(Attr(w, a.n || s[0] == '?', b, a.c), SigilHat(s[0]),
           if a.w || a.b then ApplySoul(pointee, a.w, a.b) else pointee)
    else
      var semi, close := Find(s, ';', 0), FindLast(s, ']', |s|);
      if s[0] == '[' && semi < |s| && close >= 0 then
        var length := if close > semi then s[semi + 1..close] else s[semi + 1..];
        var size := ParseUInt64(length);
        Array(a.(n := false), FromString(s[1..semi]), if size.Some? then size.value else 0,
              if size.Some? then "" else Trim(length))
      else if s[0] == '[' && semi == |s| && close >= 0 then
        Wrap(a.(n := false), Slice, FromString(Trim(s[1..close])))
      else FromName(s, a)
  }

  function FromName(s: string, a: Attr): Ty
    decreases |s|, 2
  {
    if s == "()" then Atom(PLAIN, Unit)
    else if s == "never" then Atom(PLAIN, Never)
    else if s == "void" then Atom(PLAIN, Void)
    else if IsPrimitiveName(s) then Atom(a.(n := false), Primitive(s))
    else FromShape(TrimBlanks(s), a.(n := false))
  }

  function FromShape(s: string, a: Attr): Ty
    decreases |s|, 1
  {
    if s == "unknown" then Atom(PLAIN, Unresolved(s)) else FromNamed(s, a)
  }

  function FromNamed(s: string, a: Attr): Ty
    decreases |s|, 0
  {
    var lt, gt := Find(s, '<', 0), FindLast(s, '>', |s|);
    if lt < gt then FromAngles(s[..lt], s[lt + 1..gt], s[gt + 1..], a) else FromPlainName(s, a)
  }

  /** A name without generic arguments, with or without a path behind it. */
  function FromPlainName(s: string, a: Attr): Ty {
    var sep := FindPair(s, ':', ':', 0);
    if sep < |s| then Named(s[..sep], [], TrimBlanks(s[sep..]), a) else Named(s, [], "", a)
  }

  function FromAngles(name: string, inside: string, tail: string, a: Attr): Ty
    decreases |inside|, 9
  {
    Named(name, FromPieces(SplitArgs(inside, "", 0), |inside|), TrimBlanks(tail), a)
  }

  function FromPieces(pieces: seq<string>, bound: nat): (ts: seq<Ty>)
    requires forall p | p in pieces :: |p| <= bound
    ensures |ts| == |pieces|
    decreases bound, 8, |pieces|
  {
    if pieces == [] then [] else [FromString(pieces[0])] + FromPieces(pieces[1..], bound)
  }

  /** The two compiler-known generic names, or an unbound shape. */
  function Named(name: string, args: seq<Ty>, variant: string, a: Attr): Ty {
    if name == "Uninit" && |args| == 1 then Wrap(a, Uninit, args[0])
    else if name == "__PlaceOutcome" && |args| == 1 then Wrap(a, Place, args[0])
    else Shape(a, name, args, variant, NoDecl)
  }
}
