/** Moving locals out of nested scopes and assigning them again. */
module ScopeMoves {
  import opened Types
  import P = PlaceState

  /** The part of a symbol that moves touch. */
  datatype Symbol = Symbol(moved: bool, location: Option<nat>, place: P.Exact)

  /** The flag says that the place is exactly moved. */
  predicate Agrees(s: Symbol) {
    s.moved <==> s.place.whole == P.Only(P.Moved)
  }

  predicate CanMark(s: Symbol) {
    s.place.whole == P.Only(P.Live)
  }

  function Marked(s: Symbol, at: Option<nat>): Symbol {
    Symbol(true, if at.Some? then at else s.location, s.place.(whole := P.Only(P.Moved)))
  }

  function Unmarked(s: Symbol): Symbol {
    if s.place.whole == P.Only(P.Moved) then Symbol(false, None, s.place.(whole := P.Only(P.Live))) else s
  }

  /** Neither operation separates the flag from the place, and one undoes the other. */
  lemma MarkAndUnmark(s: Symbol, at: Option<nat>)
    requires Agrees(s)
    ensures Agrees(Marked(s, at)) && Agrees(Unmarked(s))
    ensures !CanMark(Marked(s, at))
    ensures CanMark(s) ==> Unmarked(Marked(s, at)) == s.(location := None)
    ensures CanMark(Unmarked(s)) <==> CanMark(s) || s.moved
  {
  }

  class Scope {
    const parent: Scope?
    const depth: nat
    var symbols: map<string, Symbol>

    constructor (p: Scope?)
      requires p != null ==> p.Nested()
      ensures Nested() && parent == p && symbols == map[]
    {
      parent := p;
      depth := if p == null then 0 else p.depth + 1;
      symbols := map[];
    }

    /** Depths count the enclosing scopes. */
    predicate Nested()
      decreases depth
    {
      parent != null ==> parent.depth < depth && parent.Nested()
    }

    ghost function Chain(): (scopes: set<Scope>)
      requires Nested()
      ensures this in scopes && forall s | s in scopes :: s.depth <= depth
      decreases depth
    {
      {this} + (if parent == null then {} else parent.Chain())
    }

    /** findSymbol: the innermost definition wins. */
    function Lookup(name: string): Option<Symbol>
      requires Nested()
      reads Chain()
      decreases depth
    {
      if name in symbols then Some(symbols[name])
      else if parent == null then None
      else parent.Lookup(name)
    }

    method Define(name: string, s: Symbol)
      requires Nested()
      modifies this
      ensures Lookup(name) == Some(s) && symbols == old(symbols)[name := s]
    {
      symbols := symbols[name := s];
    }

    /** What every name stands for after the symbol of one name was replaced. */
    twostate predicate OnlyChanges(name: string, s: Symbol)
      requires Nested()
      reads Chain()
    {
      forall n :: Lookup(n) == if n == name then Some(s) else old(Lookup(n))
    }

    /** Writes through the pointer that findSymbol hands out. */
    method Write(name: string, s: Symbol)
      requires Nested() && Lookup(name).Some?
      modifies Chain()
      ensures OnlyChanges(name, s)
      decreases depth
    {
      if name in symbols {
        symbols := symbols[name := s];
        assert parent != null ==> forall n :: parent.Lookup(n) == old(parent.Lookup(n));
      } else {
        parent.Write(name, s);
      }
    }

    method MarkMoved(name: string, at: Option<nat>) returns (ok: bool)
      requires Nested()
      modifies Chain()
      ensures ok == (old(Lookup(name)).Some? && CanMark(old(Lookup(name)).value))
      ensures ok ==> OnlyChanges(name, Marked(old(Lookup(name)).value, at))
      ensures !ok ==> forall n :: Lookup(n) == old(Lookup(n))
    {
      var found := Lookup(name);
      if found.None? || found.value.place.whole != P.Only(P.Live) {
        return false;
      }
      Write(name, Marked(found.value, at));
      return true;
    }

    method ResetMoved(name: string) returns (found: bool)
      requires Nested()
      modifies Chain()
      ensures found == old(Lookup(name)).Some?
      ensures found ==> OnlyChanges(name, Unmarked(old(Lookup(name)).value))
      ensures !found ==> forall n :: Lookup(n) == old(Lookup(n))
    {
      var symbol := Lookup(name);
      if symbol.None? {
        return false;
      }
      if symbol.value.place.whole == P.Only(P.Moved) {
        Write(name, Unmarked(symbol.value));
      }
      return true;
    }
  }

  // ---------------------------------------------------------------- any run of calls

  datatype Call = Mark(name: string, at: Option<nat>) | Reset(name: string)

  predicate ResetBetween(calls: seq<Call>, name: string, i: int, j: int) {
    exists k :: 0 <= k < |calls| && i < k < j && calls[k] == Reset(name)
  }

  predicate Success(calls: seq<Call>, oks: seq<bool>, i: int) {
    0 <= i < |oks| <= |calls| && calls[i].Mark? && oks[i]
  }

  /** No local is moved twice without being assigned again in between, and every Moved flag agrees with
      its place throughout. */
  method RunCalls(scope: Scope, calls: seq<Call>) returns (oks: seq<bool>)
    requires scope.Nested()
    requires forall n :: scope.Lookup(n).Some? ==> Agrees(scope.Lookup(n).value)
    modifies scope.Chain()
    ensures |oks| == |calls|
    ensures forall n :: scope.Lookup(n).Some? ==> Agrees(scope.Lookup(n).value)
    ensures forall i, j | i < j && Success(calls, oks, i) && Success(calls, oks, j) && calls[i].name == calls[j].name ::
      ResetBetween(calls, calls[i].name, i, j)
  {
    oks := [];
    while |oks| < |calls|
      invariant |oks| <= |calls|
      invariant forall n :: scope.Lookup(n).Some? ==> Agrees(scope.Lookup(n).value)
      invariant forall i | Success(calls, oks, i) ::
        ResetBetween(calls, calls[i].name, i, |oks|)
        || (scope.Lookup(calls[i].name).Some? && !CanMark(scope.Lookup(calls[i].name).value))
      invariant forall i, j |
        i < j && Success(calls, oks, i) && Success(calls, oks, j) && calls[i].name == calls[j].name ::
        ResetBetween(calls, calls[i].name, i, j)
    {
      var call, before := calls[|oks|], oks;
      var ok: bool;
      if call.Mark? {
        ok := scope.MarkMoved(call.name, call.at);
      } else {
        ok := scope.ResetMoved(call.name);
      }
      oks := oks + [ok];
      assert forall i | 0 <= i < |before| :: Success(calls, oks, i) <==> Success(calls, before, i);
      forall i | Success(calls, oks, i)
        ensures ResetBetween(calls, calls[i].name, i, |oks|)
          || (scope.Lookup(calls[i].name).Some? && !CanMark(scope.Lookup(calls[i].name).value))
      {
        if i < |before| && call == Reset(calls[i].name) {
          assert calls[|before|] == Reset(calls[i].name);
        }
      }
    }
  }
}
