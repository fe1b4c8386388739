/** The nominal identity of a shape declaration and its symbol-safe name. */
module NominalShapes {
  import opened Text

  datatype NominalShapeId =
    | ResolverCoordinate(crateId: string, modulePath: string, name: string, arity: nat)
    | SourcePath(path: string, name: string, arity: nat)

  /** The five framed components: the kind of origin, two coordinates, the name and the arity. */
  function Components(n: NominalShapeId): (parts: seq<string>)
    ensures |parts| == 5
  {
    match n
    case ResolverCoordinate(crateId, modulePath, name, arity) => ["resolver", crateId, modulePath, name, Decimal(arity)]
    case SourcePath(path, name, arity) => ["source", path, "", name, Decimal(arity)]
  }

  const VERSION := "toka.nominal-shape.v1;"

  function Canonical(n: NominalShapeId): string {
    VERSION + FramedAll("", Components(n), "")
  }

  /** The encoder appends the components one by one. */
  method Encode(n: NominalShapeId) returns (canonical: string)
    ensures canonical == Canonical(n)
  {
    var parts := Components(n);
    canonical := VERSION;
    var i := 0;
    while i < 5
      invariant i <= 5
      invariant canonical + FramedAll("", parts[i..], "") == Canonical(n)
    {
      ghost var rest := FramedAll("", parts[i + 1..], "");
      assert parts[i..][1..] == parts[i + 1..];
      assert canonical + (Framed("", parts[i]) + rest) == (canonical + Framed("", parts[i])) + rest;
      canonical := AppendFrame(canonical, parts[i]);
      i := i + 1;
    }
    assert canonical + "" == canonical;
  }

  lemma {:induction false} FramesUnique(vs1: seq<string>, vs2: seq<string>)
    requires FramedAll("", vs1, "") == FramedAll("", vs2, "")
    ensures vs1 == vs2
  {
    if vs1 != [] && vs2 != [] {
      FramedUnique("", vs1[0], FramedAll("", vs1[1..], ""), "", vs2[0], FramedAll("", vs2[1..], ""));
      FramesUnique(vs1[1..], vs2[1..]);
      assert vs1 == [vs1[0]] + vs1[1..] && vs2 == [vs2[0]] + vs2[1..];
    }
  }

  /** Equal canonical texts come from the same origin kind, coordinates, name and arity. */
  lemma CanonicalUnique(m: NominalShapeId, n: NominalShapeId)
    requires Canonical(m) == Canonical(n)
    ensures m == n
  {
    SplitSameLength(VERSION, FramedAll("", Components(m), ""), VERSION, FramedAll("", Components(n), ""));
    FramesUnique(Components(m), Components(n));
    var p, q := Components(m), Components(n);
    assert p[0] == q[0] && p[1] == q[1] && p[2] == q[2] && p[3] == q[3] && p[4] == q[4];
    DecimalInjective(m.arity, n.arity);
  }

  method MangledShape(n: NominalShapeId) returns (name: string)
    requires IsBytes(Canonical(n))
    ensures name == "N" + Hex(Canonical(n))
  {
    name := HexName('N', Canonical(n));
  }

  /** And so do equal mangled names. */
  lemma MangledUnique(m: NominalShapeId, n: NominalShapeId)
    requires IsBytes(Canonical(m)) && IsBytes(Canonical(n))
    requires "N" + Hex(Canonical(m)) == "N" + Hex(Canonical(n))
    ensures m == n
  {
    SplitSameLength("N", Hex(Canonical(m)), "N", Hex(Canonical(n)));
    HexInjective(Canonical(m), Canonical(n));
    CanonicalUnique(m, n);
  }
}
