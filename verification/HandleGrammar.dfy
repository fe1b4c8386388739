/** Which handles may stand directly behind one another, and where a forbidden chain goes wrong. */
module HandleGrammar {
  import opened Types

  type Hat = w: Wrapper | IsHandle(w) witness Raw

  /** A pointer to a type: nothing, a node of the type graph, or one more handle in front of another.
      Handle layers are values; only the nodes they finally reach have an identity. */
  datatype TypeRef = Null | At(node: nat) | Pointer(hat: Hat, pointee: TypeRef)

  datatype Violation =
    | NoViolation
    | ExceededManagedDepth
    | ExceededBorrowDepth
    | InvalidManagedLayerOrder
    | MixedManagedRaw
    | ParamHandleDepthForbidden

  datatype Profile = Profile(managedDepth: nat, borrowDepth: nat, rawDepth: nat, crosses: bool, violation: Violation)

  /** The continuous handle layers from the outside in. */
  function Layers(t: TypeRef): seq<Hat> {
    if t.Pointer? then [t.hat] + Layers(t.pointee) else []
  }

  /** What the whole chain points to. */
  function Soul(t: TypeRef): (s: TypeRef)
    ensures !s.Pointer?
  {
    if t.Pointer? then Soul(t.pointee) else t
  }

  // ---------------------------------------------------------------- the grammar

  predicate AllRaw(layers: seq<Hat>) {
    forall i | 0 <= i < |layers| :: layers[i].Raw?
  }

  predicate NoRaw(layers: seq<Hat>) {
    forall i | 0 <= i < |layers| :: !layers[i].Raw?
  }

  /** No handle, raw pointers only, one managed handle, or a borrow of one managed handle. */
  predicate Grammatical(layers: seq<Hat>) {
    || AllRaw(layers)
    || (NoRaw(layers) && |layers| == 1)
    || (NoRaw(layers) && |layers| == 2 && layers[0].Ref?)
  }

  predicate AllBorrows(layers: seq<Hat>) {
    forall i | 0 <= i < |layers| :: layers[i].Ref?
  }

  /** The one reason a chain is rejected for. */
  function Verdict(layers: seq<Hat>): (v: Violation)
    ensures v.NoViolation? <==> Grammatical(layers)
    ensures !v.ParamHandleDepthForbidden?
  {
    if Grammatical(layers) then NoViolation
    else if !NoRaw(layers) then MixedManagedRaw
    else if |layers| == 2 then (if layers[1].Ref? then InvalidManagedLayerOrder else ExceededManagedDepth)
    else if AllBorrows(layers) then ExceededBorrowDepth
    else ExceededManagedDepth
  }

  function CountRaw(layers: seq<Hat>): (n: nat)
    ensures n <= |layers|
    ensures n == 0 <==> NoRaw(layers)
    ensures n == |layers| <==> AllRaw(layers)
  {
    if layers == [] then 0
    else
      var last := |layers| - 1;
      assert layers == layers[..last] + [layers[last]];
      CountRaw(layers[..last]) + (if layers[last].Raw? then 1 else 0)
  }

  function CountBorrows(layers: seq<Hat>): (n: nat)
    ensures n <= |layers|
  {
    if layers == [] then 0
    else CountBorrows(layers[..|layers| - 1]) + (if layers[|layers| - 1].Ref? then 1 else 0)
  }

  method UnpackLayers(t: TypeRef) returns (layers: seq<Hat>)
    ensures layers == Layers(t)
  {
    layers := [];
    var current := t;
    while current.Pointer?
      invariant layers + Layers(current) == Layers(t)
      decreases current
    {
      layers := layers + [current.hat];
      current := current.pointee;
    }
  }

  method CountMixed(layers: seq<Hat>) returns (raw: nat, managed: nat, borrows: nat)
    ensures raw == CountRaw(layers) && managed == |layers| - raw && borrows == CountBorrows(layers)
  {
    raw, managed, borrows := 0, 0, 0;
    for i := 0 to |layers|
      invariant raw == CountRaw(layers[..i]) && managed == i - raw && borrows == CountBorrows(layers[..i])
    {
      assert layers[..i + 1][..i] == layers[..i];
      if layers[i].Raw? {
        raw := raw + 1;
      } else {
        managed := managed + 1;
        if layers[i].Ref? {
          borrows := borrows + 1;
        }
      }
    }
    assert layers[..|layers|] == layers;
  }

  method CountLeadingBorrows(layers: seq<Hat>) returns (depth: nat)
    ensures depth <= |layers| && AllBorrows(layers[..depth])
    ensures depth < |layers| ==> !layers[depth].Ref?
  {
    depth := 0;
    while depth < |layers| && layers[depth].Ref?
      invariant depth <= |layers| && AllBorrows(layers[..depth])
    {
      depth := depth + 1;
    }
  }

  /** The profile of a chain: in a mixed chain the borrows are counted wherever they stand, in a
      managed one only those in front. */
  method Classify(t: TypeRef) returns (p: Profile)
    ensures p.violation == Verdict(Layers(t))
    ensures p.rawDepth == CountRaw(Layers(t)) && p.managedDepth == |Layers(t)| - CountRaw(Layers(t))
    ensures p.crosses <==> !AllRaw(Layers(t)) && !NoRaw(Layers(t))
    ensures p.crosses ==> p.borrowDepth == CountBorrows(Layers(t))
    ensures AllRaw(Layers(t)) ==> p.borrowDepth == 0
    ensures !p.crosses && !AllRaw(Layers(t)) ==>
      && p.borrowDepth <= |Layers(t)| && AllBorrows(Layers(t)[..p.borrowDepth])
      && (p.borrowDepth < |Layers(t)| ==> !Layers(t)[p.borrowDepth].Ref?)
  {
    var layers := UnpackLayers(t);
    if layers == [] {
      return Profile(0, 0, 0, false, NoViolation);
    }
    var hasRaw, hasManaged := false, false;
    for i := 0 to |layers|
      invariant hasRaw <==> !NoRaw(layers[..i])
      invariant hasManaged <==> !AllRaw(layers[..i])
    {
      assert layers[..i + 1] == layers[..i] + [layers[i]];
      if layers[i].Raw? {
        hasRaw := true;
      } else {
        hasManaged := true;
      }
    }
    assert layers[..|layers|] == layers;
    if hasRaw && hasManaged {
      var raw, managed, borrows := CountMixed(layers);
      return Profile(managed, borrows, raw, true, MixedManagedRaw);
    }
    if hasRaw {
      return Profile(0, 0, |layers|, false, NoViolation);
    }
    var depth := CountLeadingBorrows(layers);
    var violation := NoViolation;
    if |layers| == 1 {
    } else if |layers| == 2 {
      if layers[0].Ref? {
      } else if layers[1].Ref? {
        violation := InvalidManagedLayerOrder;
      } else {
        violation := ExceededManagedDepth;
      }
    } else if |layers| == depth {
      assert layers[..depth] == layers;
      violation := ExceededBorrowDepth;
    } else {
      violation := ExceededManagedDepth;
    }
    p := Profile(|layers|, depth, 0, false, violation);
  }

  /** A search that jumps over a chain to its end passes over grammatical chains only. */
  lemma SuffixClosed(layers: seq<Hat>, k: nat)
    requires k <= |layers| && Grammatical(layers)
    ensures Grammatical(layers[k..])
  {
    if AllRaw(layers) {
      assert forall i | 0 <= i < |layers[k..]| :: layers[k..][i] == layers[k + i];
    } else {
      assert forall i | 0 <= i < |layers[k..]| :: layers[k..][i] == layers[k + i];
      assert k == 2 ==> layers[k..] == [];
    }
  }

  // ---------------------------------------------------------------- the two layers to report

  predicate IsOwner(h: Hat) {
    h.Unique? || h.Shared?
  }

  /** Layers i and i + 1 show the violation. */
  predicate CulpritAt(layers: seq<Hat>, v: Violation, i: nat)
    requires i + 1 < |layers|
  {
    match v
    case ExceededManagedDepth => IsOwner(layers[i]) && IsOwner(layers[i + 1])
    case InvalidManagedLayerOrder => IsOwner(layers[i]) && layers[i + 1].Ref?
    case MixedManagedRaw => layers[i].Raw? != layers[i + 1].Raw?
    case _ => false
  }

  /** The layers reported for a violation: the ends of a chain of borrows, else the first culprits. */
  predicate Reported(layers: seq<Hat>, v: Violation, outer: nat, inner: nat) {
    if v.ExceededBorrowDepth? then outer == 0 && inner == (if layers == [] then 2 else |layers| - 1)
    else
      && inner == outer + 1
      && (forall i: nat | i < outer && i + 1 < |layers| :: !CulpritAt(layers, v, i))
      && ((outer + 1 < |layers| && CulpritAt(layers, v, outer))
          || (outer == 0 && forall i: nat | i + 1 < |layers| :: !CulpritAt(layers, v, i)))
  }

  method ComputeLayerIndices(t: TypeRef, v: Violation) returns (outer: nat, inner: nat)
    ensures Reported(Layers(t), v, outer, inner)
  {
    var layers := UnpackLayers(t);
    if v.ExceededBorrowDepth? {
      return 0, if |layers| > 0 then |layers| - 1 else 2;
    }
    if v.ExceededManagedDepth? || v.InvalidManagedLayerOrder? || v.MixedManagedRaw? {
      var i := 0;
      while i + 1 < |layers|
        invariant forall j: nat | j < i && j + 1 < |layers| :: !CulpritAt(layers, v, j)
      {
        if CulpritAt(layers, v, i) {
          return i, i + 1;
        }
        i := i + 1;
      }
    }
    return 0, 1;
  }

  /** Between a raw and a managed layer of one chain there is a place where the two meet. */
  lemma {:induction false} CrossingExists(layers: seq<Hat>)
    requires !AllRaw(layers) && !NoRaw(layers)
    ensures exists i: nat :: i + 1 < |layers| && CulpritAt(layers, MixedManagedRaw, i)
  {
    if layers[0].Raw? != layers[1].Raw? {
      assert CulpritAt(layers, MixedManagedRaw, 0);
    } else {
      var rest := layers[1..];
      assert forall i | 0 <= i < |rest| :: rest[i] == layers[i + 1];
      assert !AllRaw(rest) by { assert layers[0].Raw? ==> rest[0].Raw?; }
      CrossingExists(rest);
      var i: nat :| i + 1 < |rest| && CulpritAt(rest, MixedManagedRaw, i);
      assert CulpritAt(layers, MixedManagedRaw, i + 1);
    }
  }

  /** The layers reported for a rejected chain are two layers of that chain, and in a mixed chain they
      are a raw and a managed layer next to each other. */
  lemma ReportedIsInside(layers: seq<Hat>, outer: nat, inner: nat)
    requires !Grammatical(layers) && Reported(layers, Verdict(layers), outer, inner)
    ensures outer < inner < |layers|
    ensures Verdict(layers).MixedManagedRaw? ==> inner == outer + 1 && layers[outer].Raw? != layers[inner].Raw?
    ensures Verdict(layers).InvalidManagedLayerOrder? ==> IsOwner(layers[outer]) && layers[inner].Ref?
  {
    if Verdict(layers).MixedManagedRaw? {
      CrossingExists(layers);
    } else if Verdict(layers).InvalidManagedLayerOrder? {
      assert CulpritAt(layers, InvalidManagedLayerOrder, 0);
    }
  }
}
