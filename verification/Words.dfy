/** 64-bit masks, bit by bit: the word formulas of the place masks mean what set algebra says. */
module Words {

  predicate Bit(w: bv64, k: bv64) {
    k < 64 && (w >> k) & 1 == 1
  }

  lemma BitOr(a: bv64, b: bv64, k: bv64)
    ensures Bit(a | b, k) <==> Bit(a, k) || Bit(b, k)
  {
  }

  lemma BitAnd(a: bv64, b: bv64, k: bv64)
    ensures Bit(a & b, k) <==> Bit(a, k) && Bit(b, k)
  {
  }

  lemma BitOne(j: bv64, k: bv64)
    requires j < 64
    ensures Bit(1 << j, k) <==> j == k
  {
  }

  /** A word is determined by its bits. */
  lemma WordExtensional(a: bv64, b: bv64)
    requires forall k: bv64 | k < 64 :: Bit(a, k) <==> Bit(b, k)
    ensures a == b
  {
    var k: bv64 := 0;
    while k < 64
      invariant k <= 64
      invariant (a ^ b) << (64 - k) == 0
      decreases 64 - k
    {
      assert Bit(a, k) <==> Bit(b, k);
      k := k + 1;
    }
  }

  // ---------------------------------------------------------------- words as sets

  predicate IsPosition(k: bv64) {
    k < 64
  }

  /** A mask: the positions of its one-bits. */
  type Mask = s: set<bv64> | forall k | k in s :: IsPosition(k) witness {}

  function PositionsBelow(n: bv64): (s: Mask)
    requires n <= 64
    ensures forall k: bv64 :: k in s <==> k < n
  {
    if n == 0 then {} else PositionsBelow(n - 1) + {n - 1}
  }

  const POSITIONS: Mask := PositionsBelow(64)

  function Bits(w: bv64): (s: Mask)
    ensures forall k: bv64 :: k in s <==> Bit(w, k)
  {
    set k | k in POSITIONS && Bit(w, k)
  }

  lemma BitsInjective(a: bv64, b: bv64)
    requires Bits(a) == Bits(b)
    ensures a == b
  {
    forall k: bv64 | k < 64
      ensures Bit(a, k) <==> Bit(b, k)
    {
      assert k in Bits(a) <==> k in Bits(b);
    }
    WordExtensional(a, b);
  }

  lemma BitsOr(a: bv64, b: bv64)
    ensures Bits(a | b) == Bits(a) + Bits(b)
  {
    forall k: bv64
      ensures Bit(a | b, k) <==> Bit(a, k) || Bit(b, k)
    {
      BitOr(a, b, k);
    }
  }

  lemma BitsAnd(a: bv64, b: bv64)
    ensures Bits(a & b) == Bits(a) * Bits(b)
  {
    forall k: bv64
      ensures Bit(a & b, k) <==> Bit(a, k) && Bit(b, k)
    {
      BitAnd(a, b, k);
    }
  }

  lemma BitAndNot(a: bv64, b: bv64, k: bv64)
    ensures Bit(a & !b, k) <==> Bit(a, k) && !Bit(b, k)
  {
  }

  lemma BitsAndNot(a: bv64, b: bv64)
    ensures Bits(a & !b) == Bits(a) - Bits(b)
  {
    forall k: bv64
      ensures Bit(a & !b, k) <==> Bit(a, k) && !Bit(b, k)
    {
      BitAndNot(a, b, k);
    }
  }

  lemma BitsOne(j: bv64)
    requires j < 64
    ensures Bits(1 << j) == {j}
  {
    var one: bv64 := 1 << j;
    forall k: bv64
      ensures Bit(one, k) <==> k == j
    {
      BitOne(j, k);
    }
  }

  lemma BitsZero(a: bv64)
    ensures Bits(a) == {} <==> a == 0
  {
    forall k: bv64
      ensures !Bit(0, k)
    {
      BitZero(k);
    }
    if Bits(a) == {} {
      assert Bits(0) == {};
      BitsInjective(a, 0);
    }
  }

  lemma BitZero(k: bv64)
    ensures !Bit(0, k)
  {
  }

  // ---------------------------------------------------------------- the word operations

  method Or(a: bv64, b: bv64) returns (r: bv64)
    ensures Bits(r) == Bits(a) + Bits(b)
  {
    BitsOr(a, b);
    r := a | b;
  }

  method And(a: bv64, b: bv64) returns (r: bv64)
    ensures Bits(r) == Bits(a) * Bits(b)
  {
    BitsAnd(a, b);
    r := a & b;
  }

  method AndNot(a: bv64, b: bv64) returns (r: bv64)
    ensures Bits(r) == Bits(a) - Bits(b)
  {
    BitsAndNot(a, b);
    r := a & !b;
  }

  /** 1 shifted to a bit. */
  method One(bit: bv64) returns (r: bv64)
    requires IsPosition(bit)
    ensures Bits(r) == {bit}
  {
    BitsOne(bit);
    r := 1 << bit;
  }

  method Zero() returns (r: bv64)
    ensures Bits(r) == {}
  {
    BitsZero(0);
    r := 0;
  }

  method IsZero(a: bv64) returns (zero: bool)
    ensures zero <==> Bits(a) == {}
  {
    BitsZero(a);
    zero := a == 0;
  }

  method Same(a: bv64, b: bv64) returns (same: bool)
    ensures same <==> Bits(a) == Bits(b)
  {
    if Bits(a) == Bits(b) {
      BitsInjective(a, b);
    }
    same := a == b;
  }

  /** A bit past the word is off; any other is tested with the shifted one. */
  method Test(a: bv64, bit: bv64) returns (on: bool)
    ensures on <==> bit in Bits(a)
  {
    if bit >= 64 {
      return false;
    }
    var one := One(bit);
    var both := And(a, one);
    var zero := IsZero(both);
    on := !zero;
    assert bit in Bits(both) <==> bit in Bits(a);
  }
}
