/** Semantic identities: canonical keys built from typed parents and evidence. */
module SemanticKeys {
  import opened Types
  import opened Text

  datatype Domain =
    | SemanticNode | Declaration | Substitution | MethodSlot | CallableContract | LangItem | RootSymbol
    | Field | Formal | ArgumentPlan | TransferEdge | Destination | Region | PatchEntry | FullExpression
    | AuthorityObservation | ConcreteType | Cleanup | AuthorityRevision

  function DomainText(d: Domain): string {
    match d
    case SemanticNode => "node"
    case Declaration => "declaration"
    case Substitution => "substitution"
    case MethodSlot => "method-slot"
    case CallableContract => "callable-contract"
    case LangItem => "lang-item"
    case RootSymbol => "root-symbol"
    case Field => "field"
    case Formal => "formal"
    case ArgumentPlan => "argument-plan"
    case TransferEdge => "transfer-edge"
    case Destination => "destination"
    case Region => "region"
    case PatchEntry => "patch-entry"
    case FullExpression => "full-expression"
    case AuthorityObservation => "authority-observation"
    case ConcreteType => "concrete-type"
    case Cleanup => "cleanup"
    case AuthorityRevision => "authority-revision"
  }

  /** The domain a parent must have; a domain without one is rooted in an origin text. */
  function ParentDomain(d: Domain): Option<Domain> {
    match d
    case Substitution => Some(Declaration)
    case MethodSlot => Some(Declaration)
    case RootSymbol => Some(Declaration)
    case Field => Some(Declaration)
    case Formal => Some(Declaration)
    case ArgumentPlan => Some(SemanticNode)
    case TransferEdge => Some(ArgumentPlan)
    case Destination => Some(Formal)
    case Region => Some(SemanticNode)
    case PatchEntry => Some(TransferEdge)
    case FullExpression => Some(SemanticNode)
    case AuthorityObservation => Some(FullExpression)
    case Cleanup => Some(RootSymbol)
    case _ => None
  }

  /** How an identity came about: from an origin text, from a parent, or, for a cleanup, from a root
      symbol and the concrete type it cleans up. */
  datatype Lineage =
    | Rooted(domain: Domain, origin: string, evidence: string)
    | Derived(domain: Domain, parent: Lineage, evidence: string)
    | CleanupOf(symbol: Lineage, concrete: Lineage)

  function DomainOf(l: Lineage): Domain {
    match l
    case Rooted(domain, _, _) => domain
    case Derived(domain, _, _) => domain
    case CleanupOf(_, _) => Cleanup
  }

  /** What the builder's types enforce. */
  predicate WellTyped(l: Lineage) {
    match l
    case Rooted(domain, _, _) => ParentDomain(domain).None?
    case Derived(domain, parent, evidence) =>
      && !domain.Cleanup? && ParentDomain(domain) == Some(DomainOf(parent)) && WellTyped(parent)
      && (domain.FullExpression? ==> evidence == "root")
    case CleanupOf(symbol, concrete) =>
      DomainOf(symbol).RootSymbol? && DomainOf(concrete).ConcreteType? && WellTyped(symbol) && WellTyped(concrete)
  }

  // ---------------------------------------------------------------- the builder

  datatype Error = NoError | EmptyOrigin | EmptyWitness | InvalidParent

  /** An identity is its key; the empty key is the invalid identity. */
  datatype BuildResult = BuildResult(key: string, error: Error)

  const VERSION := "toka.semantic-identity.v1;"

  function KeyText(domain: Domain, origin: string, evidence: string): (key: string)
    ensures key != ""
  {
    VERSION + (Framed("", DomainText(domain)) + (Framed("", origin) + Framed("", evidence)))
  }

  method Build(domain: Domain, origin: string, evidence: string) returns (r: BuildResult)
    ensures r.error == if origin == "" then EmptyOrigin else if evidence == "" then EmptyWitness else NoError
    ensures r.key == if r.error.NoError? then KeyText(domain, origin, evidence) else ""
  {
    if origin == "" {
      return BuildResult("", EmptyOrigin);
    }
    if evidence == "" {
      return BuildResult("", EmptyWitness);
    }
    var key := AppendFrame(VERSION, DomainText(domain));
    var longer := AppendFrame(key, origin);
    var whole := AppendFrame(longer, evidence);
    r := BuildResult(whole, NoError);
    Regroup(VERSION + Framed("", DomainText(domain)), Framed("", origin), Framed("", evidence));
    Regroup(VERSION, Framed("", DomainText(domain)), Framed("", origin) + Framed("", evidence));
  }

  method BuildWithParent(domain: Domain, parentKey: string, evidence: string) returns (r: BuildResult)
    ensures parentKey == "" ==> r == BuildResult("", InvalidParent)
    ensures parentKey != "" ==> r.error == (if evidence == "" then EmptyWitness else NoError)
    ensures r.key == if r.error.NoError? then KeyText(domain, parentKey, evidence) else ""
  {
    if parentKey == "" {
      return BuildResult("", InvalidParent);
    }
    r := Build(domain, parentKey, evidence);
  }

  /** No text along the ancestry is empty. */
  predicate Complete(l: Lineage) {
    match l
    case Rooted(_, origin, evidence) => origin != "" && evidence != ""
    case Derived(_, parent, evidence) => Complete(parent) && evidence != ""
    case CleanupOf(symbol, concrete) => Complete(symbol) && Complete(concrete)
  }

  function Key(l: Lineage): (key: string)
    ensures key != ""
  {
    match l
    case Rooted(domain, origin, evidence) => KeyText(domain, origin, evidence)
    case Derived(domain, parent, evidence) => KeyText(domain, Key(parent), evidence)
    case CleanupOf(symbol, concrete) => KeyText(Cleanup, Key(symbol), Key(concrete))
  }

  /** Building a whole ancestry succeeds exactly when none of its texts is empty. The error is the
      one of the identity itself, and an ancestor's failure shows as an invalid parent. */
  method BuildLineage(l: Lineage) returns (r: BuildResult)
    requires WellTyped(l)
    ensures r.error.NoError? <==> Complete(l)
    ensures r.key == if Complete(l) then Key(l) else ""
    ensures l.Rooted? && l.origin == "" ==> r.error == EmptyOrigin
    ensures l.Rooted? && l.origin != "" && l.evidence == "" ==> r.error == EmptyWitness
    ensures l.Derived? && !Complete(l.parent) ==> r.error == InvalidParent
    ensures l.Derived? && Complete(l.parent) && l.evidence == "" ==> r.error == EmptyWitness
    ensures l.CleanupOf? && !Complete(l.symbol) ==> r.error == InvalidParent
    ensures l.CleanupOf? && Complete(l.symbol) && !Complete(l.concrete) ==> r.error == EmptyWitness
  {
    match l {
      case Rooted(domain, origin, evidence) => r := Build(domain, origin, evidence);
      case Derived(domain, parent, evidence) =>
        var above := BuildLineage(parent);
        r := BuildWithParent(domain, above.key, evidence);
      case CleanupOf(symbol, concrete) =>
        var above := BuildLineage(symbol);
        var cleaned := BuildLineage(concrete);
        r := BuildWithParent(Cleanup, above.key, cleaned.key);
    }
  }

  // ---------------------------------------------------------------- keys determine ancestries

  /** What tells the domain texts apart: their length, first and third character. */
  function Shape(d: Domain): (nat, char, char) {
    match d
    case SemanticNode => (4, 'n', 'd')
    case Declaration => (11, 'd', 'c')
    case Substitution => (12, 's', 'b')
    case MethodSlot => (11, 'm', 't')
    case CallableContract => (17, 'c', 'l')
    case LangItem => (9, 'l', 'n')
    case RootSymbol => (11, 'r', 'o')
    case Field => (5, 'f', 'e')
    case Formal => (6, 'f', 'r')
    case ArgumentPlan => (13, 'a', 'g')
    case TransferEdge => (13, 't', 'a')
    case Destination => (11, 'd', 's')
    case Region => (6, 'r', 'g')
    case PatchEntry => (11, 'p', 't')
    case FullExpression => (15, 'f', 'l')
    case AuthorityObservation => (21, 'a', 't')
    case ConcreteType => (13, 'c', 'n')
    case Cleanup => (7, 'c', 'e')
    case AuthorityRevision => (18, 'a', 't')
  }

  lemma DomainShape(d: Domain)
    ensures var t := DomainText(d); |t| > 2 && (|t|, t[0], t[2]) == Shape(d)
  {
  }

  lemma DomainUnique(d: Domain, e: Domain)
    requires DomainText(d) == DomainText(e)
    ensures d == e
  {
    DomainShape(d);
    DomainShape(e);
  }

  lemma KeyTextUnique(d1: Domain, o1: string, w1: string, d2: Domain, o2: string, w2: string)
    requires KeyText(d1, o1, w1) == KeyText(d2, o2, w2)
    ensures d1 == d2 && o1 == o2 && w1 == w2
  {
    var r1, r2 := Framed("", o1) + Framed("", w1), Framed("", o2) + Framed("", w2);
    SplitSameLength(VERSION, Framed("", DomainText(d1)) + r1, VERSION, Framed("", DomainText(d2)) + r2);
    FramedUnique("", DomainText(d1), r1, "", DomainText(d2), r2);
    DomainUnique(d1, d2);
    FramedUnique("", o1, Framed("", w1), "", o2, Framed("", w2));
    assert Framed("", w1) + "" == Framed("", w1) && Framed("", w2) + "" == Framed("", w2);
    FramedUnique("", w1, "", "", w2, "");
  }

  /** Equal keys have one and the same ancestry, down to the origin. */
  lemma {:induction false} KeyDeterminesLineage(a: Lineage, b: Lineage)
    requires WellTyped(a) && WellTyped(b) && Key(a) == Key(b)
    ensures a == b
  {
    KeyTextUnique(DomainOf(a), OriginOf(a), WitnessOf(a), DomainOf(b), OriginOf(b), WitnessOf(b));
    if a.Derived? {
      KeyDeterminesLineage(a.parent, b.parent);
    } else if a.CleanupOf? {
      KeyDeterminesLineage(a.symbol, b.symbol);
      KeyDeterminesLineage(a.concrete, b.concrete);
    }
  }

  function OriginOf(l: Lineage): string {
    match l
    case Rooted(_, origin, _) => origin
    case Derived(_, parent, _) => Key(parent)
    case CleanupOf(symbol, _) => Key(symbol)
  }

  function WitnessOf(l: Lineage): string {
    match l
    case Rooted(_, _, evidence) => evidence
    case Derived(_, _, evidence) => evidence
    case CleanupOf(_, concrete) => Key(concrete)
  }
}
