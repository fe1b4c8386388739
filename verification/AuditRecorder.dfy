/** The recorder of handle-grammar findings: its entries, its index by function and its counters. */
module AuditRecorder {
  import opened HandleGrammar
  import opened Text
  import opened Types

  datatype Origin = SourceSurface | TKIImport | Generated
  datatype Phase = DirectResolution | AliasExpansion | GenericInstance | IntermediateLowering | CodeGen
  datatype Reachability = UnknownReach | Reachable | Unreachable
  datatype Lowering = UnknownLowering | Lowered | NotLowered
  datatype Decision = Observed | RejectedSFINAE | RejectedSource

  type Reported = v: Violation | !v.NoViolation? witness MixedManagedRaw

  /** What the grammar search reported: the offending type's text and identity, and the violation. */
  datatype Finding = Finding(text: string, identity: string, violation: Reported)

  function Describe(v: Reported): string {
    match v
    case ExceededManagedDepth => "ExceededManagedDepth"
    case ExceededBorrowDepth => "ExceededBorrowDepth"
    case InvalidManagedLayerOrder => "InvalidManagedLayerOrder"
    case MixedManagedRaw => "MixedManagedRaw"
    case ParamHandleDepthForbidden => "ParamHandleDepthForbidden"
  }

  datatype Request = Request(finding: Option<Finding>, origin: Origin, phases: seq<Phase>, location: string,
                             templateName: string, genericArgs: string, memberName: string,
                             instantiated: bool, fnId: string)

  datatype Entry = Entry(identity: string, origin: Origin, phases: set<Phase>, fnId: string,
                         reachability: Reachability, lowering: Lowering, instantiated: bool,
                         decision: Decision, transient: bool, admitted: bool)

  function OriginText(o: Origin): string {
    match o
    case SourceSurface => "SourceSurface"
    case TKIImport => "TKIImport"
    case Generated => "Generated"
  }

  /** Everything of a key before the violation. */
  function KeyPrefix(r: Request, f: Finding): string {
    OriginText(r.origin) + "|" + r.location + "|" + r.templateName + "|" + r.genericArgs + "|" + r.memberName +
    "|" + f.text + "|" + f.identity
  }

  function Tail(word: string, fnId: string): string {
    "|" + word + "|" + fnId
  }

  function KeyTail(v: Reported, fnId: string): string {
    Tail(Describe(v), fnId)
  }

  function KeyOf(r: Request, f: Finding): string {
    KeyPrefix(r, f) + KeyTail(f.violation, r.fnId)
  }

  /** No violation word followed by the separator stands at the start of the id or behind a separator. */
  ghost predicate FnIdOk(fnId: string) {
    forall i: nat, v: Reported | i <= |fnId| && (i == 0 || fnId[i - 1] == '|') ::
      !StartsWith(fnId[i..], Describe(v) + "|")
  }

  /** The key ends with a violation and the function's id. */
  ghost predicate EndsWithId(key: string, fnId: string) {
    exists prefix: string, v: Reported :: key == prefix + KeyTail(v, fnId)
  }

  ghost predicate KeyNames(key: string, fnId: string) {
    FnIdOk(fnId) && EndsWithId(key, fnId)
  }

  lemma WordsUnseparated(v: Reported)
    ensures '|' !in Describe(v)
  {
  }

  lemma TailInId(w: string, f: string, i: nat)
    requires i <= |f|
    ensures Tail(w, f)[|w| + 1 + i..] == ("|" + f)[i..] && Tail(w, f)[1..] == w + "|" + f
  {
    assert Tail(w, f) == ("|" + w) + ("|" + f);
  }

  lemma SeparatorPast(w: string, f: string, at: nat)
    requires 0 < at < |Tail(w, f)| && Tail(w, f)[at] == '|' && '|' !in w
    ensures at > |w|
  {
    assert forall i | 0 < i <= |w| :: Tail(w, f)[i] == w[i - 1] && w[i - 1] in w;
  }

  /** A tail that begins inside another one begins inside its id. */
  lemma LaterTail(p1: string, w1: string, f1: string, p2: string, w2: string, f2: string) returns (i: nat)
    requires p1 + Tail(w1, f1) == p2 + Tail(w2, f2) && |p1| < |p2| && '|' !in w1
    ensures i <= |f1| && (i == 0 || f1[i - 1] == '|') && f1[i..] == w2 + "|" + f2
  {
    var key, at := p1 + Tail(w1, f1), |p2| - |p1|;
    assert Tail(w1, f1)[at..] == key[|p2|..] == Tail(w2, f2);
    assert Tail(w1, f1)[at] == Tail(w2, f2)[0] == '|';
    SeparatorPast(w1, f1, at);
    i := at - |w1| - 1;
    TailInId(w1, f1, i);
    TailInId(w2, f2, 0);
    assert f1[i..] == ("|" + f1)[i..][1..];
  }

  lemma SameTail(w1: string, f1: string, w2: string, f2: string)
    requires Tail(w1, f1) == Tail(w2, f2) && '|' !in w1 && '|' !in w2
    ensures f1 == f2
  {
    var t1, t2 := Tail(w1, f1), Tail(w2, f2);
    assert t1[|w1| + 1] == '|' && t2[|w2| + 1] == '|';
    assert forall j | 0 <= j < |w1| :: t1[j + 1] == w1[j] != '|';
    assert forall j | 0 <= j < |w2| :: t2[j + 1] == w2[j] != '|';
    assert |w1| == |w2|;
    assert f1 == t1[|w1| + 2..] && f2 == t2[|w2| + 2..];
  }

  /** An id that a key ends with is the only one of its length or shorter exactly when it is unambiguous. */
  lemma FnIdOkIff(fnId: string)
    ensures FnIdOk(fnId) <==>
      forall key, other :: EndsWithId(key, fnId) && EndsWithId(key, other) && |other| <= |fnId| ==> other == fnId
  {
    if FnIdOk(fnId) {
      forall key, other | EndsWithId(key, fnId) && EndsWithId(key, other) && |other| <= |fnId|
        ensures other == fnId
      {
        if other != fnId {
          SharedKey(key, fnId, other);
        }
      }
    } else {
      var i: nat, v: Reported :|
        i <= |fnId| && (i == 0 || fnId[i - 1] == '|') && StartsWith(fnId[i..], Describe(v) + "|");
      AmbiguousId(fnId, i, v);
    }
  }

  lemma SharedKey(key: string, f1: string, f2: string)
    requires EndsWithId(key, f1) && EndsWithId(key, f2) && f1 != f2
    ensures |f2| <= |f1| ==> !FnIdOk(f1)
    ensures |f1| <= |f2| ==> !FnIdOk(f2)
  {
    var p1: string, v1: Reported :| key == p1 + KeyTail(v1, f1);
    var p2: string, v2: Reported :| key == p2 + KeyTail(v2, f2);
    WordsUnseparated(v1);
    WordsUnseparated(v2);
    if |p1| < |p2| {
      var i := LaterTail(p1, Describe(v1), f1, p2, Describe(v2), f2);
      Ambiguous(f1, i, v2, f2);
    } else if |p2| < |p1| {
      var i := LaterTail(p2, Describe(v2), f2, p1, Describe(v1), f1);
      Ambiguous(f2, i, v1, f1);
    } else {
      assert key[|p1|..] == KeyTail(v1, f1) && key[|p2|..] == KeyTail(v2, f2);
      SameTail(Describe(v1), f1, Describe(v2), f2);
    }
  }

  lemma Ambiguous(fnId: string, i: nat, v: Reported, other: string)
    requires i <= |fnId| && (i == 0 || fnId[i - 1] == '|') && fnId[i..] == Describe(v) + "|" + other
    ensures !FnIdOk(fnId) && |other| < |fnId|
  {
    assert fnId[i..][..|Describe(v) + "|"|] == Describe(v) + "|";
    assert StartsWith(fnId[i..], Describe(v) + "|");
  }

  lemma AmbiguousId(fnId: string, i: nat, v: Reported)
    requires i <= |fnId| && (i == 0 || fnId[i - 1] == '|') && StartsWith(fnId[i..], Describe(v) + "|")
    ensures exists key, other :: EndsWithId(key, fnId) && EndsWithId(key, other) && |other| < |fnId|
  {
    var w := Describe(v);
    var other, key := fnId[i + |w| + 1..], Tail(w, fnId);
    TailInside(w, fnId, i);
    assert key == "" + KeyTail(v, fnId) && key == key[..|w| + 1 + i] + KeyTail(v, other);
    assert EndsWithId(key, fnId) && EndsWithId(key, other) && |other| < |fnId|;
  }

  lemma TailInside(w: string, fnId: string, i: nat)
    requires i <= |fnId| && (i == 0 || fnId[i - 1] == '|') && StartsWith(fnId[i..], w + "|")
    ensures i + |w| + 1 <= |fnId|
    ensures Tail(w, fnId) == Tail(w, fnId)[..|w| + 1 + i] + Tail(w, fnId[i + |w| + 1..])
  {
    var key, at := Tail(w, fnId), |w| + 1 + i;
    var rest := fnId[i..];
    assert rest == w + "|" + rest[|w| + 1..] && rest[|w| + 1..] == fnId[i + |w| + 1..];
    assert key[at] == '|' && key[at + 1..] == rest;
    assert key == key[..at] + ([key[at]] + key[at + 1..]);
  }

  /** A key names one function. */
  lemma KeyNamesOne(key: string, f1: string, f2: string)
    requires KeyNames(key, f1) && KeyNames(key, f2)
    ensures f1 == f2
  {
    if f1 != f2 {
      SharedKey(key, f1, f2);
    }
  }

  // ---------------------------------------------------------------- what a key says

  /** The nine components of a key, in its order. */
  function Components(r: Request, f: Finding): (parts: seq<string>)
    ensures |parts| == 9
  {
    [OriginText(r.origin), r.location, r.templateName, r.genericArgs, r.memberName, f.text, f.identity,
     Describe(f.violation), r.fnId]
  }

  function Barred(parts: seq<string>): string
    requires parts != []
  {
    if |parts| == 1 then parts[0] else parts[0] + ("|" + Barred(parts[1..]))
  }

  lemma KeyIsBarred(r: Request, f: Finding)
    ensures KeyOf(r, f) == Barred(Components(r, f))
  {
    var parts := Components(r, f);
    var tail := KeyTail(f.violation, r.fnId);
    assert Barred(parts[8..]) == r.fnId;
    assert parts[7..][1..] == parts[8..] && "|" + Barred(parts[7..]) == tail;
    BarredStep(parts, 6, tail);
    BarredStep(parts, 5, "|" + Barred(parts[6..]));
    BarredStep(parts, 4, "|" + Barred(parts[5..]));
    BarredStep(parts, 3, "|" + Barred(parts[4..]));
    BarredStep(parts, 2, "|" + Barred(parts[3..]));
    BarredStep(parts, 1, "|" + Barred(parts[2..]));
    BarredStep(parts, 0, "|" + Barred(parts[1..]));
    PrefixRegrouped(parts, tail);
    assert parts[0..] == parts;
  }

  lemma BarredStep(parts: seq<string>, i: nat, rest: string)
    requires i + 1 < |parts| && rest == "|" + Barred(parts[i + 1..])
    ensures Barred(parts[i..]) == parts[i] + rest
  {
    assert parts[i..][1..] == parts[i + 1..];
  }

  lemma PrefixRegrouped(c: seq<string>, tail: string)
    requires |c| >= 7
    ensures c[0] + "|" + c[1] + "|" + c[2] + "|" + c[3] + "|" + c[4] + "|" + c[5] + "|" + c[6] + tail
         == c[0] + ("|" + (c[1] + ("|" + (c[2] + ("|" + (c[3] + ("|" + (c[4] + ("|" + (c[5] +
            ("|" + (c[6] + tail))))))))))))
  {
    var p1 := c[0] + "|" + c[1];
    var p2 := p1 + "|" + c[2];
    var p3 := p2 + "|" + c[3];
    var p4 := p3 + "|" + c[4];
    var p5 := p4 + "|" + c[5];
    var t5 := "|" + (c[6] + tail);
    Pushed(p5, c[6], tail);
    Pushed(p4, c[5], t5);
    Pushed(p3, c[4], "|" + (c[5] + t5));
    Pushed(p2, c[3], "|" + (c[4] + ("|" + (c[5] + t5))));
    Pushed(p1, c[2], "|" + (c[3] + ("|" + (c[4] + ("|" + (c[5] + t5))))));
    Pushed(c[0], c[1], "|" + (c[2] + ("|" + (c[3] + ("|" + (c[4] + ("|" + (c[5] + t5))))))));
  }

  lemma Pushed(p: string, q: string, tail: string)
    ensures p + "|" + q + tail == p + ("|" + (q + tail))
  {
    Regroup(p, "|", q);
    Regroup(p, "|" + q, tail);
    Regroup("|", q, tail);
  }

  lemma {:induction false} BarredUnique(parts1: seq<string>, parts2: seq<string>, n: nat)
    requires |parts1| == |parts2| && n < |parts1| && Barred(parts1) == Barred(parts2)
    requires forall i | 0 <= i < n :: '|' !in parts1[i] && '|' !in parts2[i]
    ensures parts1[..n] == parts2[..n] && (n == |parts1| - 1 ==> parts1 == parts2)
  {
    if n > 0 {
      SpanUnique(c => c != '|', parts1[0], "|" + Barred(parts1[1..]), parts2[0], "|" + Barred(parts2[1..]));
      assert ("|" + Barred(parts1[1..]))[1..] == Barred(parts1[1..]);
      assert ("|" + Barred(parts2[1..]))[1..] == Barred(parts2[1..]);
      BarredUnique(parts1[1..], parts2[1..], n - 1);
      assert parts1[..n] == [parts1[0]] + parts1[1..][..n - 1] && parts2[..n] == [parts2[0]] + parts2[1..][..n - 1];
      assert parts1 == [parts1[0]] + parts1[1..] && parts2 == [parts2[0]] + parts2[1..];
    }
  }

  /** Equal keys agree on their first n components when the separator occurs in none of these, and on all
      nine when it occurs at most in the function ids. */
  lemma KeyDetermines(r1: Request, f1: Finding, r2: Request, f2: Finding, n: nat)
    requires KeyOf(r1, f1) == KeyOf(r2, f2) && n <= 8
    requires forall i | 0 <= i < n :: '|' !in Components(r1, f1)[i] && '|' !in Components(r2, f2)[i]
    ensures Components(r1, f1)[..n] == Components(r2, f2)[..n]
    ensures n == 8 ==> Components(r1, f1) == Components(r2, f2)
  {
    KeyIsBarred(r1, f1);
    KeyIsBarred(r2, f2);
    BarredUnique(Components(r1, f1), Components(r2, f2), n);
  }

  /** Findings of different origins or at different locations have different keys. */
  lemma KeyDeterminesPlace(r1: Request, f1: Finding, r2: Request, f2: Finding)
    requires KeyOf(r1, f1) == KeyOf(r2, f2) && '|' !in r1.location && '|' !in r2.location
    ensures r1.origin == r2.origin && r1.location == r2.location
  {
    var c1, c2 := Components(r1, f1), Components(r2, f2);
    assert '|' !in c1[0] && '|' !in c2[0];
    KeyDetermines(r1, f1, r2, f2, 2);
    assert c1[..2][0] == c2[..2][0] && c1[..2][1] == c2[..2][1];
    assert |OriginText(r1.origin)| == |OriginText(r2.origin)|;
  }

  function PhaseSet(phases: seq<Phase>): set<Phase> {
    set p | p in phases
  }

  type Entries = map<string, Entry>
  type Index = map<string, seq<string>>

  function ReachOf(fnId: string, reachable: set<string>): Reachability {
    if fnId == "" then UnknownReach else if fnId in reachable then Reachable else Unreachable
  }

  function LoweringOf(fnId: string, lowered: set<string>): Lowering {
    if fnId == "" then UnknownLowering else if fnId in lowered then Lowered else NotLowered
  }

  ghost predicate Named(entries: Entries) {
    forall key | key in entries :: KeyNames(key, entries[key].fnId)
  }

  /** The list of a function holds the keys of exactly its entries. */
  ghost predicate Indexed(entries: Entries, index: Index) {
    && (forall key | key in entries && entries[key].fnId != "" :: Listed(index, entries[key].fnId, key))
    && (forall fnId, key | Listed(index, fnId, key) :: key in entries && entries[key].fnId == fnId && fnId != "")
  }

  predicate Listed(index: Index, fnId: string, key: string) {
    fnId in index && key in index[fnId]
  }

  /** The two statuses of an entry say what the sets say of its function. */
  ghost predicate Agreeing(entries: Entries, reachable: set<string>, lowered: set<string>) {
    forall key | key in entries ::
      && entries[key].reachability == ReachOf(entries[key].fnId, reachable)
      && entries[key].lowering == LoweringOf(entries[key].fnId, lowered)
  }

  function Appended(index: Index, fnId: string, key: string): Index {
    index[fnId := (if fnId in index then index[fnId] else []) + [key]]
  }

  /** Setting an entry and listing its key under its function keeps the index. */
  lemma IndexKept(entries: Entries, index: Index, key: string, e: Entry)
    requires Indexed(entries, index) && (key in entries ==> entries[key].fnId == e.fnId)
    ensures Indexed(entries[key := e], if e.fnId == "" then index else Appended(index, e.fnId, key))
  {
    var more := if e.fnId == "" then index else Appended(index, e.fnId, key);
    assert forall fnId, k :: Listed(more, fnId, k) <==> Listed(index, fnId, k) || (fnId == e.fnId != "" && k == key);
  }

  lemma SettingKeeps(entries: Entries, key: string, e: Entry, reachable: set<string>, lowered: set<string>)
    requires Named(entries) && Agreeing(entries, reachable, lowered) && KeyNames(key, e.fnId)
    requires e.reachability == ReachOf(e.fnId, reachable) && e.lowering == LoweringOf(e.fnId, lowered)
    ensures Named(entries[key := e]) && Agreeing(entries[key := e], reachable, lowered)
  {
  }

  /** A rejection in the source rejects every entry of the same type. */
  function Rejecting(entries: Entries, identity: string): Entries {
    map key | key in entries ::
      if entries[key].identity == identity then entries[key].(decision := RejectedSource, transient := false)
      else entries[key]
  }

  lemma RejectingKeeps(entries: Entries, identity: string, index: Index, reachable: set<string>, lowered: set<string>)
    requires Named(entries) && Indexed(entries, index) && Agreeing(entries, reachable, lowered)
    ensures var after := Rejecting(entries, identity);
      after.Keys == entries.Keys && Named(after) && Indexed(after, index) && Agreeing(after, reachable, lowered)
  {
    var after := Rejecting(entries, identity);
    assert forall key | key in entries :: after[key].fnId == entries[key].fnId;
  }

  function Reaching(entries: Entries, fnId: string): Entries {
    map key | key in entries ::
      if entries[key].fnId == fnId then entries[key].(reachability := Reachable) else entries[key]
  }

  function ReachingKeys(entries: Entries, keys: seq<string>): Entries {
    map key | key in entries :: if key in keys then entries[key].(reachability := Reachable) else entries[key]
  }

  function LoweringKeys(entries: Entries, keys: seq<string>): Entries {
    map key | key in entries :: if key in keys then entries[key].(lowering := Lowered) else entries[key]
  }

  lemma ReachingKeysStep(entries: Entries, keys: seq<string>, key: string)
    ensures ReachingKeys(entries, keys + [key]) ==
      if key in entries then
        ReachingKeys(entries, keys)[key := ReachingKeys(entries, keys)[key].(reachability := Reachable)]
      else ReachingKeys(entries, keys)
  {
  }

  lemma LoweringKeysStep(entries: Entries, keys: seq<string>, key: string)
    ensures LoweringKeys(entries, keys + [key]) ==
      if key in entries then LoweringKeys(entries, keys)[key := LoweringKeys(entries, keys)[key].(lowering := Lowered)]
      else LoweringKeys(entries, keys)
  {
  }

  /** The keys listed for a function are those of its entries. */
  lemma ListedKeys(entries: Entries, index: Index, fnId: string)
    requires Indexed(entries, index) && fnId != ""
    ensures fnId !in index ==> Reaching(entries, fnId) == entries && LoweringAll(entries, fnId) == entries
    ensures fnId in index ==> Reaching(entries, fnId) == ReachingKeys(entries, index[fnId])
    ensures fnId in index ==> LoweringAll(entries, fnId) == LoweringKeys(entries, index[fnId])
  {
    assert forall key | key in entries && entries[key].fnId == fnId :: Listed(index, fnId, key);
    if fnId in index {
      assert forall key | key in index[fnId] :: Listed(index, fnId, key);
    }
  }

  lemma ReachingKeeps(entries: Entries, fnId: string, index: Index, reachable: set<string>, lowered: set<string>)
    requires Named(entries) && Indexed(entries, index) && Agreeing(entries, reachable, lowered) && fnId != ""
    ensures var after := Reaching(entries, fnId);
      && after.Keys == entries.Keys && Named(after) && Indexed(after, index)
      && Agreeing(after, reachable + {fnId}, lowered)
  {
    var after := Reaching(entries, fnId);
    assert forall key | key in entries :: after[key].fnId == entries[key].fnId;
  }

  function LoweringAll(entries: Entries, fnId: string): Entries {
    map key | key in entries ::
      if entries[key].fnId == fnId then entries[key].(lowering := Lowered) else entries[key]
  }

  lemma LoweringKeeps(entries: Entries, fnId: string, index: Index, reachable: set<string>, lowered: set<string>)
    requires Named(entries) && Indexed(entries, index) && Agreeing(entries, reachable, lowered) && fnId != ""
    ensures var after := LoweringAll(entries, fnId);
      && after.Keys == entries.Keys && Named(after) && Indexed(after, index)
      && Agreeing(after, reachable, lowered + {fnId})
  {
    var after := LoweringAll(entries, fnId);
    assert forall key | key in entries :: after[key].fnId == entries[key].fnId;
  }

  // ---------------------------------------------------------------- what one report does

  /** The entry a first report makes. */
  function FreshEntry(r: Request, f: Finding, reachable: set<string>, lowered: set<string>): Entry {
    var transient := IntermediateLowering in r.phases;
    Entry(f.identity, r.origin, PhaseSet(r.phases), r.fnId,
          ReachOf(r.fnId, reachable), LoweringOf(r.fnId, lowered), r.instantiated,
          if transient then Observed else if r.origin.Generated? then RejectedSFINAE else RejectedSource,
          transient, false)
  }

  /** What a further report under the same key changes. */
  function Repeated(e: Entry, r: Request): Entry {
    var seen := e.(phases := e.phases + PhaseSet(r.phases),
                   transient := e.transient || IntermediateLowering in r.phases);
    if r.instantiated then seen.(instantiated := true, decision := Observed, admitted := true) else seen
  }

  function Recorded(entries: Entries, r: Request, f: Finding, reachable: set<string>, lowered: set<string>): Entries {
    var key := KeyOf(r, f);
    if key in entries then entries[key := Repeated(entries[key], r)]
    else
      var made := FreshEntry(r, f, reachable, lowered);
      (if made.decision.RejectedSource? then Rejecting(entries, f.identity) else entries)[key := made]
  }

  /** A first finding in the source rejects every entry of its type; a generated one is rejected as a
      substitution failure and a transient one only observed, and neither touches another entry; an
      instantiated repetition admits its entry, any other leaves the decision as it was. */
  lemma RecordedDecides(entries: Entries, r: Request, f: Finding, reachable: set<string>, lowered: set<string>)
    ensures var key, after := KeyOf(r, f), Recorded(entries, r, f, reachable, lowered);
      var transient := IntermediateLowering in r.phases;
      && after.Keys == entries.Keys + {key}
      && (key !in entries ==>
            !after[key].admitted && after[key].identity == f.identity && after[key].origin == r.origin)
      && (key !in entries && !transient && !r.origin.Generated? ==>
            forall k | k in after && after[k].identity == f.identity ::
              after[k].decision.RejectedSource? && !after[k].transient)
      && (key !in entries && (transient || r.origin.Generated?) ==>
            && after[key].decision == (if transient then Observed else RejectedSFINAE)
            && forall k | k in entries :: after[k] == entries[k])
      && (key in entries ==>
            && after[key].admitted == (entries[key].admitted || r.instantiated)
            && after[key].decision == (if r.instantiated then Observed else entries[key].decision)
            && forall k | k in entries && k != key :: after[k] == entries[k])
  {
  }

  class Recorder {
    const enabled: bool
    var formed: nat
    var valid: nat
    var invalid: nat
    var reachableMethods: nat
    var loweredMethods: nat
    var entries: map<string, Entry>
    var index: map<string, seq<string>>
    var reachable: set<string>
    var lowered: set<string>

    constructor (on: bool)
      ensures Valid() && enabled == on && entries == map[] && reachable == {} && lowered == {} && formed == 0
    {
      enabled := on;
      formed, valid, invalid, reachableMethods, loweredMethods := 0, 0, 0, 0, 0;
      entries, index, reachable, lowered := map[], map[], {}, {};
    }

    ghost predicate Valid()
      reads this
    {
      && formed == valid + invalid
      && reachableMethods == |reachable| && loweredMethods == |lowered|
      && Named(entries) && Indexed(entries, index) && Agreeing(entries, reachable, lowered)
    }

    method Record(r: Request)
      requires Valid() && FnIdOk(r.fnId)
      modifies this
      ensures Valid() && reachable == old(reachable) && lowered == old(lowered)
      ensures formed == old(formed) + (if enabled then 1 else 0)
      ensures valid == old(valid) + (if enabled && r.finding.None? then 1 else 0)
      ensures invalid == old(invalid) + (if enabled && r.finding.Some? then 1 else 0)
      ensures entries ==
        if !enabled || r.finding.None? then old(entries)
        else Recorded(old(entries), r, r.finding.value, reachable, lowered)
    {
      if !enabled {
        return;
      }
      formed := formed + 1;
      if r.finding.None? {
        valid := valid + 1;
        return;
      }
      invalid := invalid + 1;
      var key := KeyOf(r, r.finding.value);
      assert KeyNames(key, r.fnId);
      if key !in entries {
        RecordFirst(r, r.finding.value, key);
      } else {
        RecordAgain(r, key);
      }
    }

    method RecordFirst(r: Request, f: Finding, key: string)
      requires Valid() && key == KeyOf(r, f) && KeyNames(key, r.fnId) && key !in entries
      modifies this`entries, this`index
      ensures Valid() && entries == Recorded(old(entries), r, f, reachable, lowered)
    {
      var entry := FreshEntry(r, f, reachable, lowered);
      if entry.decision.RejectedSource? {
        RejectingKeeps(entries, f.identity, index, reachable, lowered);
        entries := Rejecting(entries, f.identity);
      }
      IndexKept(entries, index, key, entry);
      SettingKeeps(entries, key, entry, reachable, lowered);
      entries := entries[key := entry];
      if r.fnId != "" {
        index := Appended(index, r.fnId, key);
      }
    }

    /** Entering the function's id and statuses again changes nothing where they agree with the sets. */
    method RefreshStatuses(e: Entry, fnId: string) returns (entry: Entry)
      requires fnId != "" && e.reachability == ReachOf(fnId, reachable) && e.lowering == LoweringOf(fnId, lowered)
      ensures entry == e.(fnId := fnId)
    {
      entry := e.(fnId := fnId);
      if fnId in reachable {
        entry := entry.(reachability := Reachable);
      } else if entry.reachability.UnknownReach? {
        entry := entry.(reachability := Unreachable);
      }
      if fnId in lowered {
        entry := entry.(lowering := Lowered);
      } else if entry.lowering.UnknownLowering? {
        entry := entry.(lowering := NotLowered);
      }
    }

    method RecordAgain(r: Request, key: string)
      requires Valid() && KeyNames(key, r.fnId) && key in entries
      modifies this`entries, this`index
      ensures Valid() && entries == old(entries)[key := Repeated(old(entries)[key], r)]
    {
      var entry := Repeated(entries[key], r);
      KeyNamesOne(key, r.fnId, entry.fnId);
      if r.fnId != "" {
        entry := RefreshStatuses(entry, r.fnId);
      }
      IndexKept(entries, index, key, entry);
      SettingKeeps(entries, key, entry, reachable, lowered);
      entries := entries[key := entry];
      if r.fnId != "" {
        index := Appended(index, r.fnId, key);
      }
    }

    /** The loop over a function's list. */
    method ReachEntries(fnId: string)
      requires Indexed(entries, index) && fnId != ""
      modifies this`entries
      ensures entries == Reaching(old(entries), fnId)
    {
      ListedKeys(entries, index, fnId);
      if fnId !in index {
        return;
      }
      var keys := index[fnId];
      for i := 0 to |keys|
        invariant entries == ReachingKeys(old(entries), keys[..i])
      {
        var key := keys[i];
        assert keys[..i + 1] == keys[..i] + [key];
        ReachingKeysStep(old(entries), keys[..i], key);
        if key in entries {
          entries := entries[key := entries[key].(reachability := Reachable)];
        }
      }
      assert keys[..|keys|] == keys;
    }

    method MarkFunctionReachable(fnId: string)
      requires Valid()
      modifies this
      ensures Valid() && lowered == old(lowered) && formed == old(formed) && valid == old(valid)
      ensures reachable == if enabled && fnId != "" then old(reachable) + {fnId} else old(reachable)
      ensures entries == if enabled && fnId != "" then Reaching(old(entries), fnId) else old(entries)
    {
      if !enabled || fnId == "" {
        return;
      }
      ReachingKeeps(entries, fnId, index, reachable, lowered);
      assert fnId in reachable ==> reachable + {fnId} == reachable;
      if fnId !in reachable {
        reachable := reachable + {fnId};
        reachableMethods := reachableMethods + 1;
      }
      ReachEntries(fnId);
    }

    /** The loop over a function's list. */
    method LowerEntries(fnId: string)
      requires Indexed(entries, index) && fnId != ""
      modifies this`entries
      ensures entries == LoweringAll(old(entries), fnId)
    {
      ListedKeys(entries, index, fnId);
      if fnId !in index {
        return;
      }
      var keys := index[fnId];
      for i := 0 to |keys|
        invariant entries == LoweringKeys(old(entries), keys[..i])
      {
        var key := keys[i];
        assert keys[..i + 1] == keys[..i] + [key];
        LoweringKeysStep(old(entries), keys[..i], key);
        if key in entries {
          entries := entries[key := entries[key].(lowering := Lowered)];
        }
      }
      assert keys[..|keys|] == keys;
    }

    method MarkFunctionCodeGenLowered(fnId: string)
      requires Valid()
      modifies this
      ensures Valid() && reachable == old(reachable) && formed == old(formed) && valid == old(valid)
      ensures lowered == if enabled && fnId != "" then old(lowered) + {fnId} else old(lowered)
      ensures entries == if enabled && fnId != "" then LoweringAll(old(entries), fnId) else old(entries)
    {
      if !enabled || fnId == "" {
        return;
      }
      LoweringKeeps(entries, fnId, index, reachable, lowered);
      assert fnId in lowered ==> lowered + {fnId} == lowered;
      if fnId !in lowered {
        lowered := lowered + {fnId};
        loweredMethods := loweredMethods + 1;
      }
      LowerEntries(fnId);
    }
  }

  // ---------------------------------------------------------------- any order of calls

  datatype Call = Report(request: Request) | MarkReachable(fnId: string) | MarkLowered(fnId: string)

  /** What the recorder remembers. */
  datatype Log = Log(entries: Entries, reachable: set<string>, lowered: set<string>)

  function Apply(log: Log, call: Call): Log {
    match call
    case Report(r) =>
      if r.finding.None? then log
      else log.(entries := Recorded(log.entries, r, r.finding.value, log.reachable, log.lowered))
    case MarkReachable(fnId) =>
      if fnId == "" then log
      else log.(entries := Reaching(log.entries, fnId), reachable := log.reachable + {fnId})
    case MarkLowered(fnId) =>
      if fnId == "" then log
      else log.(entries := LoweringAll(log.entries, fnId), lowered := log.lowered + {fnId})
  }

  function Played(calls: seq<Call>): Log {
    if calls == [] then Log(map[], {}, {}) else Apply(Played(calls[..|calls| - 1]), calls[|calls| - 1])
  }

  predicate Names(call: Call, key: string) {
    call.Report? && call.request.finding.Some? && KeyOf(call.request, call.request.finding.value) == key
  }

  /** The reports of findings under a key, in their order. */
  function Under(calls: seq<Call>, key: string): (rs: seq<Request>)
    ensures forall r | r in rs :: r.finding.Some? && KeyOf(r, r.finding.value) == key
    ensures forall call | call in calls && Names(call, key) :: call.request in rs
  {
    if calls == [] then []
    else
      var last := calls[|calls| - 1];
      assert calls == calls[..|calls| - 1] + [last];
      Under(calls[..|calls| - 1], key) + (if Names(last, key) then [last.request] else [])
  }

  /** What the reports under a key make of its entry: it has the identity, origin and function of the
      first, the phases of all, and is instantiated if one was; it is admitted if a later one was. */
  predicate Accounts(rs: seq<Request>, e: Entry)
    requires forall r | r in rs :: r.finding.Some?
  {
    && rs != [] && e.identity == rs[0].finding.value.identity && e.origin == rs[0].origin && e.fnId == rs[0].fnId
    && e.phases == (set i, p | 0 <= i < |rs| && p in rs[i].phases :: p)
    && (e.instantiated <==> exists i | 0 <= i < |rs| :: rs[i].instantiated)
    && (e.admitted <==> exists i | 0 < i < |rs| :: rs[i].instantiated)
  }

  /** The first report under a key makes its entry. */
  lemma FirstAccounts(r: Request, reachable: set<string>, lowered: set<string>)
    requires r.finding.Some?
    ensures Accounts([r], FreshEntry(r, r.finding.value, reachable, lowered))
  {
    assert [r][0] == r;
    assert PhaseSet(r.phases) == (set i, p | 0 <= i < |[r]| && p in [r][i].phases :: p);
  }

  /** A later one adds to it. */
  lemma LaterAccounts(rs: seq<Request>, r: Request, e: Entry)
    requires r.finding.Some? && (forall q | q in rs :: q.finding.Some?) && Accounts(rs, e)
    ensures Accounts(rs + [r], Repeated(e, r))
  {
    var all := rs + [r];
    assert all[|rs|] == r && forall i | 0 <= i < |rs| :: all[i] == rs[i];
    assert (set i, p | 0 <= i < |all| && p in all[i].phases :: p)
        == (set i, p | 0 <= i < |rs| && p in rs[i].phases :: p) + PhaseSet(r.phases);
  }

  /** What an entry keeps when something else happens. */
  predicate SameAccount(e: Entry, f: Entry) {
    && e.identity == f.identity && e.origin == f.origin && e.fnId == f.fnId && e.phases == f.phases
    && e.instantiated == f.instantiated && e.admitted == f.admitted
  }

  lemma OtherCall(log: Log, call: Call, key: string)
    requires !Names(call, key)
    ensures key in Apply(log, call).entries <==> key in log.entries
    ensures key in log.entries ==> SameAccount(log.entries[key], Apply(log, call).entries[key])
  {
  }

  /** A key has an entry exactly when a finding was reported under it, and the entry accounts for all such
      reports; marking functions and findings under other keys change nothing of this. */
  lemma {:induction false} EntriesAccount(calls: seq<Call>, key: string)
    ensures key in Played(calls).entries <==> Under(calls, key) != []
    ensures key in Played(calls).entries ==> Accounts(Under(calls, key), Played(calls).entries[key])
  {
    if calls != [] {
      var init, last := calls[..|calls| - 1], calls[|calls| - 1];
      var before := Played(init);
      EntriesAccount(init, key);
      if !Names(last, key) {
        OtherCall(before, last, key);
      } else if key in before.entries {
        LaterAccounts(Under(init, key), last.request, before.entries[key]);
      } else {
        FirstAccounts(last.request, before.reachable, before.lowered);
      }
    }
  }

  /** Findings at two locations have two entries. */
  lemma LocationsApart(calls: seq<Call>, c1: Call, c2: Call, key1: string, key2: string)
    requires c1 in calls && c2 in calls && Names(c1, key1) && Names(c2, key2)
    requires '|' !in c1.request.location && '|' !in c2.request.location && c1.request.location != c2.request.location
    ensures key1 != key2 && key1 in Played(calls).entries && key2 in Played(calls).entries
  {
    EntriesAccount(calls, key1);
    EntriesAccount(calls, key2);
    if key1 == key2 {
      KeyDeterminesPlace(c1.request, c1.request.finding.value, c2.request, c2.request.finding.value);
    }
  }

  /** Whether a call settles the decision on an entry: its first report, an instantiated repetition, or a
      first finding in the source on the same type. */
  predicate Settles(log: Log, call: Call, key: string, identity: string) {
    call.Report? && call.request.finding.Some? &&
    var r, f := call.request, call.request.finding.value;
    if KeyOf(r, f) == key then key !in log.entries || r.instantiated
    else KeyOf(r, f) !in log.entries && f.identity == identity && Verdict(log, r, f).RejectedSource?
  }

  /** What it decides. */
  function Verdict(log: Log, r: Request, f: Finding): Decision {
    if KeyOf(r, f) in log.entries || IntermediateLowering in r.phases then Observed
    else if r.origin.Generated? then RejectedSFINAE
    else RejectedSource
  }

  lemma SettledStep(log: Log, call: Call, key: string)
    requires key in Apply(log, call).entries
    ensures var e := Apply(log, call).entries[key];
      && (Settles(log, call, key, e.identity) ==>
            e.decision == Verdict(log, call.request, call.request.finding.value))
      && (!Settles(log, call, key, e.identity) ==>
            key in log.entries && log.entries[key].decision == e.decision && log.entries[key].identity == e.identity)
  {
  }

  predicate SettlesAt(calls: seq<Call>, i: nat, key: string, identity: string)
    requires i < |calls|
  {
    Settles(Played(calls[..i]), calls[i], key, identity)
  }

  lemma SettlesEarlier(calls: seq<Call>, n: nat, i: nat, key: string, identity: string)
    requires i < n <= |calls|
    ensures SettlesAt(calls[..n], i, key, identity) == SettlesAt(calls, i, key, identity)
    ensures calls[..n][..i] == calls[..i]
  {
    assert calls[..n][..i] == calls[..i];
  }

  /** The decision on an entry is that of the last call that settled it. */
  lemma {:induction false} LastDecision(calls: seq<Call>, key: string, i: nat)
    requires key in Played(calls).entries && i < |calls|
    requires var identity := Played(calls).entries[key].identity;
      SettlesAt(calls, i, key, identity) && forall j | i < j < |calls| :: !SettlesAt(calls, j, key, identity)
    ensures Played(calls).entries[key].decision
         == Verdict(Played(calls[..i]), calls[i].request, calls[i].request.finding.value)
  {
    var n, identity := |calls| - 1, Played(calls).entries[key].identity;
    SettledStep(Played(calls[..n]), calls[n], key);
    if i < n {
      assert !SettlesAt(calls, n, key, identity);
      forall j | i <= j < n
        ensures SettlesAt(calls[..n], j, key, identity) == SettlesAt(calls, j, key, identity)
      {
        SettlesEarlier(calls, n, j, key, identity);
      }
      LastDecision(calls[..n], key, i);
      SettlesEarlier(calls, n, i, key, identity);
    }
  }

  /** The recorder remembers what the calls say. Whatever their order, in the end an entry is Reachable
      (or Lowered) exactly when its function was marked so at any time, before the entry was made or
      after it. */
  method Replay(calls: seq<Call>) returns (recorder: Recorder)
    requires forall i | 0 <= i < |calls| && calls[i].Report? :: FnIdOk(calls[i].request.fnId)
    ensures fresh(recorder) && recorder.Valid() && recorder.entries == Played(calls).entries
    ensures forall key | key in recorder.entries :: var e := recorder.entries[key];
      e.fnId != "" ==>
        && (e.reachability == Reachable <==> MarkReachable(e.fnId) in calls)
        && (e.lowering == Lowered <==> MarkLowered(e.fnId) in calls)
  {
    recorder := new Recorder(true);
    for i := 0 to |calls|
      invariant recorder.Valid() && recorder.enabled
      invariant Log(recorder.entries, recorder.reachable, recorder.lowered) == Played(calls[..i])
      invariant forall fnId :: fnId in recorder.reachable <==> fnId != "" && MarkReachable(fnId) in calls[..i]
      invariant forall fnId :: fnId in recorder.lowered <==> fnId != "" && MarkLowered(fnId) in calls[..i]
    {
      assert calls[..i + 1] == calls[..i] + [calls[i]] && calls[..i + 1][..i] == calls[..i];
      match calls[i] {
        case Report(request) => recorder.Record(request);
        case MarkReachable(fnId) => recorder.MarkFunctionReachable(fnId);
        case MarkLowered(fnId) => recorder.MarkFunctionCodeGenLowered(fnId);
      }
    }
    assert calls[..|calls|] == calls;
  }
}
