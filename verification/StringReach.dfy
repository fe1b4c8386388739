/** What the string parser can return at all: never an array inside a slice or inside another array. */
module StringReach {
  import opened Text
  import opened Types
  import opened TypeString
  import opened StringRoundTrip

  predicate NoSemi(s: string) {
    ';' !in s
  }

  /** A type read from s: it is flat, and without a ';' in the text it has no array at all. */
  predicate Tame(t: Ty, s: string) {
    Flat(t) && (NoSemi(s) ==> NoArray(t))
  }

  predicate TameAll(ts: seq<Ty>, s: string) {
    FlatAll(ts) && (NoSemi(s) ==> NoArrays(ts))
  }

  // ---------------------------------------------------------------- cutting and trimming add no ';'

  lemma {:induction false} TrimLeftKeeps(s: string)
    requires NoSemi(s)
    ensures NoSemi(TrimLeft(s))
  {
    if s != "" && s[0] == ' ' {
      TrimLeftKeeps(s[1..]);
    }
  }

  lemma {:induction false} TrimRightKeeps(s: string)
    requires NoSemi(s)
    ensures NoSemi(TrimRight(s))
  {
    if s != "" && s[|s| - 1] == ' ' {
      TrimRightKeeps(s[..|s| - 1]);
    }
  }

  lemma TrimKeeps(s: string)
    ensures NoSemi(s) ==> NoSemi(Trim(s))
  {
    if NoSemi(s) {
      TrimLeftKeeps(s);
      TrimRightKeeps(TrimLeft(s));
    }
  }

  lemma {:induction false} TrimBlanksKeeps(s: string)
    ensures NoSemi(s) ==> NoSemi(TrimBlanks(s))
  {
    if s != "" && IsBlank(s[0]) {
      TrimBlanksKeeps(s[1..]);
    } else if s != "" && IsBlank(s[|s| - 1]) {
      TrimBlanksKeeps(s[..|s| - 1]);
    }
  }

  lemma StripLifetimeKeeps(s: string)
    ensures NoSemi(s) ==> NoSemi(StripLifetime(s))
  {
    TrimKeeps(s[..LifetimeCut(s, 0, 0)]);
  }

  lemma {:induction false} StripMarksKeeps(s: string)
    ensures NoSemi(s) ==> NoSemi(StripMarks(s).body)
  {
    if s != "" {
      StripMarksKeeps(s[..|s| - 1]);
    }
  }

  lemma DropCallMarkKeeps(s: string)
    requires s != ""
    ensures NoSemi(s) ==> NoSemi(DropCallMark(s).0)
  {
  }

  predicate NoneSemi(pieces: seq<string>) {
    forall p | p in pieces :: NoSemi(p)
  }

  lemma {:induction false} SplitParamsKeeps(s: string, cur: string, balance: int)
    requires NoSemi(s) && NoSemi(cur)
    ensures NoneSemi(SplitParams(s, cur, balance))
    decreases |s|
  {
    if s == "" {
    } else if s[0] == ',' && balance == 0 {
      SplitParamsKeeps(s[1..], "", 0);
    } else {
      SplitParamsKeeps(s[1..], cur + [s[0]], balance + Bracket(s[0]));
    }
  }

  lemma {:induction false} SplitArgsKeeps(s: string, cur: string, balance: int)
    requires NoSemi(s) && NoSemi(cur)
    ensures NoneSemi(SplitArgs(s, cur, balance))
    decreases |s|
  {
    if s == "" {
    } else if s[0] == '<' && |s| > 1 && s[1] == '-' {
      SplitArgsKeeps(s[2..], cur + s[..2], balance);
    } else if s[0] == ',' && balance == 0 {
      SplitArgsKeeps(s[1..], "", 0);
    } else {
      SplitArgsKeeps(s[1..], cur + [s[0]], balance + Angle(s[0]));
    }
  }

  lemma {:induction false} KeptParamsKeeps(pieces: seq<string>, dyn: bool, bound: nat)
    requires forall p | p in pieces :: |p| <= bound
    requires NoneSemi(pieces)
    ensures NoneSemi(KeptParams(pieces, dyn, bound))
  {
    if pieces != [] {
      TrimKeeps(pieces[0]);
      KeptParamsKeeps(pieces[1..], dyn, bound);
    }
  }

  // ---------------------------------------------------------------- attributes add no array

  lemma {:induction false} ApplySoulKeeps(t: Ty, w: bool, b: bool)
    ensures NoArray(ApplySoul(t, w, b)) == NoArray(t) && Flat(ApplySoul(t, w, b)) == Flat(t)
  {
    if IsPointer(t) {
      ApplySoulKeeps(t.inner, w, b);
    }
  }

  lemma NamedKeeps(name: string, args: seq<Ty>, variant: string, a: Attr)
    ensures FlatAll(args) ==> Flat(Named(name, args, variant, a))
    ensures NoArrays(args) ==> NoArray(Named(name, args, variant, a))
  {
  }

  // ---------------------------------------------------------------- the parser, stage by stage

  lemma {:induction false} StringTame(raw: string)
    ensures Tame(FromString(raw), raw)
    decreases |raw|, 7
  {
    TrimKeeps(raw);
    TrimmedTame(Trim(raw), raw);
  }

  lemma {:induction false} TrimmedTame(s: string, raw: string)
    ensures Tame(FromTrimmed(s, raw), s)
    decreases |s|, 6
  {
    if s != "" {
      var m := StripMarks(StripLifetime(s));
      StripLifetimeKeeps(s);
      StripMarksKeeps(StripLifetime(s));
      if m.body != "" && !m.n {
        UnmarkedTame(m.body, m.w, m.b, raw);
      }
    }
  }

  lemma {:induction false} UnmarkedTame(s: string, w: bool, b: bool, raw: string)
    ensures Tame(FromUnmarked(s, w, b, raw), s)
    decreases |s|, 5
  {
    var cede := StartsWith(s, "cede ");
    if cede {
      TrimKeeps(s[5..]);
    }
    var s1 := if cede then Trim(s[5..]) else s;
    var spaced := StartsWith(s1, "nul ");
    var glued := StartsWith(s1, "nul") && |s1| > 3 && (s1[3] == '*' || s1[3] == '^' || s1[3] == '~' || s1[3] == '&');
    if spaced {
      TrimKeeps(s1[4..]);
    } else if glued {
      TrimKeeps(s1[3..]);
    }
    var s2 := if spaced then Trim(s1[4..]) else if glued then Trim(s1[3..]) else s1;
    if !(s2 == "" || ((spaced || glued) && s2[0] != '*')) {
      BodyTame(s2, Attr(w, spaced || glued, b, cede));
    }
  }

  lemma {:induction false} BodyTame(s: string, a: Attr)
    requires s != ""
    ensures Tame(FromBody(s, a), s)
    decreases |s|, 4
  {
    var cut := MissCut(s);
    if cut < |s| {
      StringTame(s[..cut]);
    } else {
      var (s', mutable) := DropCallMark(s);
      DropCallMarkKeeps(s);
      CallTame(s', a, mutable);
    }
  }

  lemma {:induction false} CallTame(s: string, a: Attr, mutable: bool)
    requires s != ""
    ensures Tame(FromCall(s, a, mutable), s)
    decreases |s|, 3, 1
  {
    var start := if StartsWith(s, "dyn fn(") then 7 else if StartsWith(s, "dynfn(") then 6 else 0;
    var dynEnd := ParamsEnd(s, start, 0);
    if start > 0 && dynEnd < |s| {
      SignatureTame(s[start..dynEnd], true);
      ResultTame(s, dynEnd);
    } else if StartsWith(s, "fn(") && ParamsEnd(s, 3, 0) < |s| {
      SignatureTame(s[3..ParamsEnd(s, 3, 0)], false);
      ResultTame(s, ParamsEnd(s, 3, 0));
    } else {
      RestTame(s, a);
    }
  }

  lemma {:induction false} SignatureTame(inside: string, dyn: bool)
    ensures TameAll(FromSignature(inside, dyn), inside)
    decreases |inside|, 9
  {
    var kept := KeptParams(SplitParams(inside, "", 0), dyn, |inside|);
    if NoSemi(inside) {
      SplitParamsKeeps(inside, "", 0);
      KeptParamsKeeps(SplitParams(inside, "", 0), dyn, |inside|);
    }
    PiecesTame(kept, |inside|);
  }

  lemma {:induction false} ResultTame(s: string, end: nat)
    requires end < |s|
    ensures Tame(FromResult(s, end), s)
    decreases |s|, 0
  {
    var arrow := FindPair(s, '-', '>', end);
    if arrow < |s| {
      TrimKeeps(s[arrow + 2..]);
      StringTame(Trim(s[arrow + 2..]));
    }
  }

  lemma {:induction false} RestTame(s: string, a: Attr)
    requires s != ""
    ensures Tame(FromRest(s, a), s)
    decreases |s|, 3, 0
  {
    if IsSigil(s[0]) {
      HandleTame(s, a);
    } else if s[0] == '[' {
      BracketTame(s, a);
    } else {
      NameTame(s, a);
    }
  }

  lemma {:induction false} HandleTame(s: string, a: Attr)
    requires s != "" && IsSigil(s[0])
    ensures Tame(FromRest(s, a), s)
    decreases |s|, 2
  {
    var offset := HatMarks(s, 1).0;
    var pointee := FromString(s[offset..]);
    StringTame(s[offset..]);
    ApplySoulKeeps(pointee, a.w, a.b);
  }

  lemma {:induction false} BracketTame(s: string, a: Attr)
    requires s != "" && s[0] == '['
    ensures Tame(FromRest(s, a), s)
    decreases |s|, 2, 1
  {
    var semi, close := Find(s, ';', 0), FindLast(s, ']', |s|);
    if semi < |s| && close >= 0 {
      assert NoSemi(s[1..semi]);
      StringTame(s[1..semi]);
      assert s[semi] in s;
    } else if semi == |s| && close >= 0 {
      assert NoSemi(s);
      TrimKeeps(s[1..close]);
      StringTame(Trim(s[1..close]));
    } else {
      NameTame(s, a);
    }
  }

  lemma {:induction false} NameTame(s: string, a: Attr)
    ensures Tame(FromName(s, a), s)
    decreases |s|, 2, 0
  {
    if s == "()" || s == "never" || s == "void" || IsPrimitiveName(s) {
    } else {
      TrimBlanksKeeps(s);
      ShapeTame(TrimBlanks(s), a.(n := false));
    }
  }

  lemma {:induction false} ShapeTame(s: string, a: Attr)
    ensures Tame(FromShape(s, a), s)
    decreases |s|, 1
  {
    if s != "unknown" {
      if Find(s, '<', 0) < FindLast(s, '>', |s|) {
        var lt, gt := Find(s, '<', 0), FindLast(s, '>', |s|);
        ShapeIsAngles(s, a);
        BracketedTame(s, lt, gt, a);
      } else {
        ShapeIsPlain(s, a);
        PlainNameTame(s, a);
      }
    }
  }

  lemma {:induction false} BracketedTame(s: string, lt: nat, gt: nat, a: Attr)
    requires lt < gt < |s|
    ensures Tame(FromAngles(s[..lt], s[lt + 1..gt], s[gt + 1..], a), s)
    decreases |s|, 0
  {
    var name, inside, tail := s[..lt], s[lt + 1..gt], s[gt + 1..];
    SliceKeeps(s, lt + 1, gt);
    AnglesTame(name, inside, tail, a);
    TameWider(FromAngles(name, inside, tail, a), inside, s);
  }

  lemma TameWider(t: Ty, part: string, s: string)
    requires Tame(t, part) && (NoSemi(s) ==> NoSemi(part))
    ensures Tame(t, s)
  {
  }

  lemma ShapeIsPlain(s: string, a: Attr)
    requires s != "unknown" && Find(s, '<', 0) >= FindLast(s, '>', |s|)
    ensures FromShape(s, a) == FromPlainName(s, a)
  {
  }

  lemma ShapeIsAngles(s: string, a: Attr)
    requires s != "unknown" && Find(s, '<', 0) < FindLast(s, '>', |s|)
    ensures var lt, gt := Find(s, '<', 0), FindLast(s, '>', |s|);
      FromShape(s, a) == FromAngles(s[..lt], s[lt + 1..gt], s[gt + 1..], a)
  {
  }

  lemma PlainNameTame(s: string, a: Attr)
    ensures Tame(FromPlainName(s, a), s)
  {
    var sep := FindPair(s, ':', ':', 0);
    NamedKeeps(s[..sep], [], TrimBlanks(s[sep..]), a);
    NamedKeeps(s, [], "", a);
  }

  lemma SliceKeeps(s: string, from: nat, to: nat)
    requires from <= to <= |s|
    ensures NoSemi(s) ==> NoSemi(s[from..to])
  {
  }

  lemma {:induction false} AnglesTame(name: string, inside: string, tail: string, a: Attr)
    ensures Tame(FromAngles(name, inside, tail, a), inside)
    decreases |inside|, 9
  {
    if NoSemi(inside) {
      SplitArgsKeeps(inside, "", 0);
    }
    var pieces := SplitArgs(inside, "", 0);
    PiecesTame(pieces, |inside|);
    NamedKeeps(name, FromPieces(pieces, |inside|), TrimBlanks(tail), a);
  }

  lemma {:induction false} PiecesTame(pieces: seq<string>, bound: nat)
    requires forall p | p in pieces :: |p| <= bound
    ensures FlatAll(FromPieces(pieces, bound))
    ensures NoneSemi(pieces) ==> NoArrays(FromPieces(pieces, bound))
    decreases bound, 8, |pieces|
  {
    if pieces != [] {
      StringTame(pieces[0]);
      PiecesTame(pieces[1..], bound);
    }
  }

  // ---------------------------------------------------------------- exactly when the bridge carries

  /** Whatever text it is given, the parser never puts an array inside a slice or another array. */
  lemma ParsedIsFlat(text: string)
    ensures Flat(FromString(text))
  {
    StringTame(text);
  }

  /** A printable type survives printing and parsing exactly when no array in it stands inside a slice
      or inside another array. */
  lemma StringBridgeIff(t: Ty)
    requires Printable(t)
    ensures FromString(ToString(t)) == t <==> Flat(t)
  {
    ParsedIsFlat(ToString(t));
    if Flat(t) {
      StringBridge(t);
    }
  }
}
