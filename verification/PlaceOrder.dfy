/** The order of places: roots first, then the projections one by one. */
module PlaceOrder {

  /** Irreflexive, transitive, and any two different values are ordered one way. */
  ghost predicate StrictTotalOrder<T(!new)>(less: (T, T) -> bool) {
    && (forall a, b :: less(a, b) ==> !less(b, a))
    && (forall a, b, c :: less(a, b) && less(b, c) ==> less(a, c))
    && (forall a, b :: less(a, b) || less(b, a) || a == b)
    && (forall a :: !less(a, a))
  }

  /** std::lexicographical_compare. */
  predicate LexLess<T>(less: (T, T) -> bool, a: seq<T>, b: seq<T>) {
    b != [] && (a == [] || less(a[0], b[0]) || (!less(b[0], a[0]) && LexLess(less, a[1..], b[1..])))
  }

  lemma {:induction false} LexAsymmetric<T(!new)>(less: (T, T) -> bool, a: seq<T>, b: seq<T>)
    requires StrictTotalOrder(less)
    ensures LexLess(less, a, b) ==> !LexLess(less, b, a)
    ensures !LexLess(less, a, a)
  {
    if a != [] {
      LexAsymmetric(less, a[1..], if b == [] then [] else b[1..]);
    }
  }

  lemma {:induction false} LexTransitive<T(!new)>(less: (T, T) -> bool, a: seq<T>, b: seq<T>, c: seq<T>)
    requires StrictTotalOrder(less) && LexLess(less, a, b) && LexLess(less, b, c)
    ensures LexLess(less, a, c)
  {
    if a != [] && !less(a[0], b[0]) && !less(b[0], c[0]) {
      assert a[0] == b[0] == c[0];
      LexTransitive(less, a[1..], b[1..], c[1..]);
    }
  }

  lemma {:induction false} LexTotal<T(!new)>(less: (T, T) -> bool, a: seq<T>, b: seq<T>)
    requires StrictTotalOrder(less) && a != b
    ensures LexLess(less, a, b) || LexLess(less, b, a)
  {
    if a != [] && b != [] && a[0] == b[0] {
      assert a == [a[0]] + a[1..] && b == [b[0]] + b[1..];
      LexTotal(less, a[1..], b[1..]);
    }
  }

  lemma CharsOrdered()
    ensures StrictTotalOrder(CharLess)
  {
  }

  predicate CharLess(a: char, b: char) {
    a < b
  }

  /** std::string's operator<. */
  predicate StringLess(a: string, b: string) {
    LexLess(CharLess, a, b)
  }

  lemma StringsOrdered()
    ensures StrictTotalOrder(StringLess)
  {
    CharsOrdered();
    forall a, b
      ensures StringLess(a, b) ==> !StringLess(b, a)
      ensures StringLess(a, b) || StringLess(b, a) || a == b
      ensures !StringLess(a, a)
    {
      LexAsymmetric(CharLess, a, b);
      if a != b {
        LexTotal(CharLess, a, b);
      }
    }
    forall a, b, c | StringLess(a, b) && StringLess(b, c)
      ensures StringLess(a, c)
    {
      LexTransitive(CharLess, a, b, c);
    }
  }

  // ---------------------------------------------------------------- places

  datatype ProjectionKind = Field | ConstantIndex | DynamicIndex | Dereference | Unknown

  /** A projection keeps all three coordinates; those that its kind does not use stay empty. */
  datatype Projection = Projection(kind: ProjectionKind, field: string, index: nat, expression: string)

  function KindRank(k: ProjectionKind): nat {
    match k
    case Field => 0
    case ConstantIndex => 1
    case DynamicIndex => 2
    case Dereference => 3
    case Unknown => 4
  }

  predicate ProjectionLess(p: Projection, q: Projection) {
    if p.kind != q.kind then KindRank(p.kind) < KindRank(q.kind)
    else if p.field != q.field then StringLess(p.field, q.field)
    else if p.index != q.index then p.index < q.index
    else StringLess(p.expression, q.expression)
  }

  lemma ProjectionsOrdered()
    ensures StrictTotalOrder(ProjectionLess)
  {
    StringsOrdered();
    forall a, b, c | ProjectionLess(a, b) && ProjectionLess(b, c)
      ensures ProjectionLess(a, c)
    {
    }
  }

  predicate ProjectionValid(p: Projection) {
    match p.kind
    case Field => p.field != ""
    case DynamicIndex => p.expression != ""
    case _ => true
  }

  datatype Place = Place(root: string, projections: seq<Projection>)

  /** PlaceId's operator<. */
  predicate PlaceLess(p: Place, q: Place) {
    StringLess(p.root, q.root) || (!StringLess(q.root, p.root) && LexLess(ProjectionLess, p.projections, q.projections))
  }

  method IsValid(p: Place) returns (valid: bool)
    ensures valid <==> p.root != "" && forall i | 0 <= i < |p.projections| :: ProjectionValid(p.projections[i])
  {
    if p.root == "" {
      return false;
    }
    for i := 0 to |p.projections|
      invariant forall j | 0 <= j < i :: ProjectionValid(p.projections[j])
    {
      if !ProjectionValid(p.projections[i]) {
        return false;
      }
    }
    return true;
  }

  lemma PlacesDecided(p: Place, q: Place)
    ensures PlaceLess(p, q) ==> !PlaceLess(q, p)
    ensures PlaceLess(p, q) || PlaceLess(q, p) || p == q
    ensures !PlaceLess(p, p)
  {
    StringsOrdered();
    ProjectionsOrdered();
    LexAsymmetric(ProjectionLess, p.projections, q.projections);
    if p.projections != q.projections {
      LexTotal(ProjectionLess, p.projections, q.projections);
    }
  }

  lemma PlacesTransitive(p: Place, q: Place, r: Place)
    requires PlaceLess(p, q) && PlaceLess(q, r)
    ensures PlaceLess(p, r)
  {
    StringsOrdered();
    ProjectionsOrdered();
    if LexLess(ProjectionLess, p.projections, q.projections) && LexLess(ProjectionLess, q.projections, r.projections) {
      LexTransitive(ProjectionLess, p.projections, q.projections, r.projections);
    }
  }

  /** The order of places is strict and total, and only equal places are unordered. */
  lemma PlacesOrdered()
    ensures StrictTotalOrder(PlaceLess)
  {
    forall p, q
      ensures PlaceLess(p, q) ==> !PlaceLess(q, p)
      ensures PlaceLess(p, q) || PlaceLess(q, p) || p == q
      ensures !PlaceLess(p, p)
    {
      PlacesDecided(p, q);
    }
    forall p, q, r | PlaceLess(p, q) && PlaceLess(q, r)
      ensures PlaceLess(p, r)
    {
      PlacesTransitive(p, q, r);
    }
  }
}
