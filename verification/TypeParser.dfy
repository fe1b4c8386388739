/** fromString as the compiler runs it: each scan is a loop that updates positions and balances,
    and is proved to compute what the parsing function says. */
module TypeParser {
  import opened Text
  import opened Types
  import opened TypeString

  method CutLifetime(s: string) returns (r: string)
    ensures r == StripLifetime(s)
  {
    var i, balance := 0, 0;
    while i < |s| && !(balance == 0 && i + 1 < |s| && s[i] == '<' && s[i + 1] == '-')
      invariant i <= |s|
      invariant LifetimeCut(s, 0, 0) == LifetimeCut(s, i, balance)
    {
      balance := balance + Bracket(s[i]);
      i := i + 1;
    }
    r := if i < |s| then Trim(s[..i]) else s;
  }

  method PopMarks(s: string) returns (m: Marked)
    ensures m == StripMarks(s)
  {
    var body, w, n, b := s, false, false, false;
    while body != "" && (body[|body| - 1] == '#' || body[|body| - 1] == '?' ||
                         body[|body| - 1] == '$' || body[|body| - 1] == ' ')
      invariant StripMarks(s).body == StripMarks(body).body
      invariant StripMarks(s).w == (w || StripMarks(body).w)
      invariant StripMarks(s).n == (n || StripMarks(body).n)
      invariant StripMarks(s).b == (b || StripMarks(body).b)
      decreases |body|
    {
      var last := body[|body| - 1];
      if last == '#' {
        w := true;
      } else if last == '?' {
        n := true;
      } else if last == '$' {
        b := true;
      }
      body := body[..|body| - 1];
    }
    m := Marked(body, w, n, b);
  }

  method FindParamsEnd(s: string, start: nat) returns (end: nat)
    requires start <= |s|
    ensures end == ParamsEnd(s, start, 0)
  {
    end := start;
    var depth := 0;
    while end < |s|
      invariant start <= end <= |s| && depth >= 0
      invariant ParamsEnd(s, start, 0) == ParamsEnd(s, end, depth)
    {
      if s[end] == '(' {
        depth := depth + 1;
      } else if s[end] == ')' {
        if depth == 0 {
          return;
        }
        depth := depth - 1;
      }
      end := end + 1;
    }
  }

  method CutParams(s: string) returns (pieces: seq<string>)
    ensures pieces == SplitParams(s, "", 0)
  {
    pieces := [];
    var rest, cur, balance := s, "", 0;
    while rest != ""
      invariant SplitParams(s, "", 0) == pieces + SplitParams(rest, cur, balance)
      decreases |rest|
    {
      if rest[0] == ',' && balance == 0 {
        pieces := pieces + [cur];
        cur := "";
      } else {
        balance := balance + Bracket(rest[0]);
        cur := cur + [rest[0]];
      }
      rest := rest[1..];
    }
    if cur != "" {
      pieces := pieces + [cur];
    }
  }

  method CutArgs(s: string) returns (pieces: seq<string>)
    ensures pieces == SplitArgs(s, "", 0)
  {
    pieces := [];
    var rest, cur, balance := s, "", 0;
    while rest != ""
      invariant SplitArgs(s, "", 0) == pieces + SplitArgs(rest, cur, balance)
      decreases |rest|
    {
      if rest[0] == '<' && |rest| > 1 && rest[1] == '-' {
        cur := cur + rest[..2];
        rest := rest[2..];
      } else {
        if rest[0] == ',' && balance == 0 {
          pieces := pieces + [cur];
          cur := "";
        } else {
          balance := balance + Angle(rest[0]);
          cur := cur + [rest[0]];
        }
        rest := rest[1..];
      }
    }
    if cur != "" {
      pieces := pieces + [cur];
    }
  }

  method SkipHatMarks(s: string) returns (offset: nat, w: bool, b: bool)
    requires s != ""
    ensures 1 <= offset <= |s| && (offset, w, b) == HatMarks(s, 1)
  {
    offset, w, b := 1, false, false;
    while offset < |s| && (s[offset] == '#' || s[offset] == '$')
      invariant 1 <= offset <= |s|
      invariant HatMarks(s, 1).0 == HatMarks(s, offset).0
      invariant HatMarks(s, 1).1 == (w || HatMarks(s, offset).1)
      invariant HatMarks(s, 1).2 == (b || HatMarks(s, offset).2)
    {
      if s[offset] == '#' {
        w := true;
      } else {
        b := true;
      }
      offset := offset + 1;
    }
  }

  /** The parser itself, on any text. */
  method ParseType(raw: string) returns (t: Ty)
    ensures t == FromString(raw)
    decreases |raw|, 9
  {
    var s := Trim(raw);
    if s == "" {
      return Atom(PLAIN, Unit);
    }
    var uncut := CutLifetime(s);
    var m := PopMarks(uncut);
    if m.body == "" || m.n {
      return Atom(PLAIN, Unresolved(raw));
    }
    assert FromString(raw) == FromUnmarked(m.body, m.w, m.b, raw);
    s := m.body;
    var cede := StartsWith(s, "cede ");
    if cede {
      s := Trim(s[5..]);
    }
    var mayZero := false;
    if StartsWith(s, "nul ") {
      mayZero := true;
      s := Trim(s[4..]);
    } else if StartsWith(s, "nul") && |s| > 3 && (s[3] == '*' || s[3] == '^' || s[3] == '~' || s[3] == '&') {
      mayZero := true;
      s := Trim(s[3..]);
    }
    if s == "" || (mayZero && s[0] != '*') {
      return Atom(PLAIN, Unresolved(raw));
    }
    t := ParseBody(s, Attr(m.w, mayZero, m.b, cede));
  }

  method ParseBody(s: string, a: Attr) returns (t: Ty)
    requires s != ""
    ensures t == FromBody(s, a)
    decreases |s|, 8
  {
    var cut := MissCut(s);
    if cut < |s| {
      var payload := ParseType(s[..cut]);
      return Wrap(a.(n := false), Miss, payload);
    }
    var (s', mutable) := DropCallMark(s);
    var mode := if a.c then ConsumingCall else if mutable then MutableCall else SharedCall;
    var start := if StartsWith(s', "dyn fn(") then 7 else if StartsWith(s', "dynfn(") then 6 else 0;
    if start > 0 {
      var end := FindParamsEnd(s', start);
      if end < |s'| {
        var params := ParseSignature(s'[start..end], true);
        var ret := ParseResult(s', end);
        return Callable(a.(n := false), DynFn, params, ret, mode);
      }
    }
    if StartsWith(s', "fn(") {
      var end := FindParamsEnd(s', 3);
      if end < |s'| {
        var params := ParseSignature(s'[3..end], false);
        var ret := ParseResult(s', end);
        return Callable(a.(n := false), PlainFn(SaysVariadic(s'[3..end])), params, ret, mode);
      }
    }
    t := ParseRest(s', a);
  }

  method ParseSignature(inside: string, dyn: bool) returns (params: seq<Ty>)
    ensures params == FromSignature(inside, dyn)
    decreases |inside|, 11
  {
    var pieces := CutParams(inside);
    var kept := KeepParams(pieces, dyn, |inside|);
    params := ParsePieces(kept, |inside|);
  }

  method KeepParams(pieces: seq<string>, dyn: bool, bound: nat) returns (kept: seq<string>)
    requires forall p | p in pieces :: |p| <= bound
    ensures kept == KeptParams(pieces, dyn, bound)
  {
    kept := [];
    var rest := pieces;
    while rest != []
      invariant forall p | p in rest :: p in pieces
      invariant KeptParams(pieces, dyn, bound) == kept + KeptParams(rest, dyn, bound)
      decreases |rest|
    {
      var p := Trim(rest[0]);
      Regroup(kept, KeepParam(p, dyn), KeptParams(rest[1..], dyn, bound));
      kept := kept + KeepParam(p, dyn);
      rest := rest[1..];
    }
  }

  method ParseResult(s: string, end: nat) returns (t: Ty)
    requires end < |s|
    ensures t == FromResult(s, end)
    decreases |s|, 0
  {
    var arrow := FindPair(s, '-', '>', end);
    if arrow < |s| {
      t := ParseType(Trim(s[arrow + 2..]));
    } else {
      t := Atom(PLAIN, Unit);
    }
  }

  method ParseHandle(s: string, a: Attr) returns (t: Ty)
    requires s != "" && IsSigil(s[0])
    ensures t == FromRest(s, a)
    decreases |s|, 6
  {
    var offset, w, b := SkipHatMarks(s);
    var pointee := ParseType(s[offset..]);
    if a.w || a.b {
      pointee := ApplySoul(pointee, a.w, a.b);
    }
    t := Wrap(Attr(w, a.n || s[0] == '?', b, a.c), SigilHat(s[0]), pointee);
  }

  method ParseRest(s: string, a: Attr) returns (t: Ty)
    requires s != ""
    ensures t == FromRest(s, a)
    decreases |s|, 7
  {
    if IsSigil(s[0]) {
      t := ParseHandle(s, a);
      return;
    }
    var semi, close := Find(s, ';', 0), FindLast(s, ']', |s|);
    if s[0] == '[' && semi < |s| && close >= 0 {
      var elem := ParseType(s[1..semi]);
      var length := if close > semi then s[semi + 1..close] else s[semi + 1..];
      var size := ParseUInt64(length);
      return Array(a.(n := false), elem, if size.Some? then size.value else 0, if size.Some? then "" else Trim(length));
    }
    if s[0] == '[' && semi == |s| && close >= 0 {
      var elem := ParseType(Trim(s[1..close]));
      return Wrap(a.(n := false), Slice, elem);
    }
    t := ParseName(s, a);
  }

  method ParseName(s: string, a: Attr) returns (t: Ty)
    ensures t == FromName(s, a)
    decreases |s|, 5
  {
    if s == "()" {
      return Atom(PLAIN, Unit);
    } else if s == "never" {
      return Atom(PLAIN, Never);
    } else if s == "void" {
      return Atom(PLAIN, Void);
    } else if IsPrimitiveName(s) {
      return Atom(a.(n := false), Primitive(s));
    }
    var name := TrimBlanks(s);
    if name == "unknown" {
      t := Atom(PLAIN, Unresolved(name));
    } else {
      t := ParseNamed(name, a.(n := false));
    }
  }

  lemma NamedIsAngles(s: string, a: Attr)
    requires Find(s, '<', 0) < FindLast(s, '>', |s|)
    ensures var lt, gt := Find(s, '<', 0), FindLast(s, '>', |s|);
      FromNamed(s, a) == FromAngles(s[..lt], s[lt + 1..gt], s[gt + 1..], a)
  {
  }

  method ParseNamed(name: string, a: Attr) returns (t: Ty)
    ensures t == FromNamed(name, a)
    decreases |name|, 4
  {
    var lt, gt := Find(name, '<', 0), FindLast(name, '>', |name|);
    if lt < gt {
      NamedIsAngles(name, a);
      t := ParseAngled(name, lt, gt, a);
    } else {
      NamedIsPlain(name, a);
      t := ParsePlainName(name, a);
    }
  }

  lemma NamedIsPlain(s: string, a: Attr)
    requires Find(s, '<', 0) >= FindLast(s, '>', |s|)
    ensures FromNamed(s, a) == FromPlainName(s, a)
  {
  }

  method ParsePlainName(name: string, a: Attr) returns (t: Ty)
    ensures t == FromPlainName(name, a)
  {
    var sep := FindPair(name, ':', ':', 0);
    if sep < |name| {
      t := Named(name[..sep], [], TrimBlanks(name[sep..]), a);
    } else {
      t := Named(name, [], "", a);
    }
  }

  method ParseAngled(name: string, lt: nat, gt: nat, a: Attr) returns (t: Ty)
    requires lt < gt < |name|
    ensures t == FromAngles(name[..lt], name[lt + 1..gt], name[gt + 1..], a)
    decreases |name|, 3
  {
    t := ParseGeneric(name[..lt], name[lt + 1..gt], name[gt + 1..], a);
  }

  method ParseGeneric(name: string, inside: string, tail: string, a: Attr) returns (t: Ty)
    ensures t == FromAngles(name, inside, tail, a)
    decreases |inside|, 11
  {
    var pieces := CutArgs(inside);
    var args := ParsePieces(pieces, |inside|);
    t := Named(name, args, TrimBlanks(tail), a);
  }

  method ParsePieces(pieces: seq<string>, bound: nat) returns (ts: seq<Ty>)
    requires forall p | p in pieces :: |p| <= bound
    ensures ts == FromPieces(pieces, bound)
    decreases bound, 10
  {
    ts := [];
    var rest := pieces;
    while rest != []
      invariant forall p | p in rest :: p in pieces
      invariant FromPieces(pieces, bound) == ts + FromPieces(rest, bound)
      decreases |rest|
    {
      var t := ParseType(rest[0]);
      Regroup(ts, [t], FromPieces(rest[1..], bound));
      ts := ts + [t];
      rest := rest[1..];
    }
  }
}
