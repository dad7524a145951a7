/** Bit strings as the controller uses them: arbitrary-precision naturals in which
    BFR-id k owns bit k-1 (section 3 of RFC 8279). Bitwise OR and AND are defined
    arithmetically and characterised bit by bit. */
module Bitmask {

  function Pow2(n: nat): (r: nat)
    ensures r >= 1
  {
    if n == 0 then 1 else 2 * Pow2(n - 1)
  }

  /** Bit i (counting from 0) of x. */
  predicate HasBit(x: nat, i: nat) {
    if i == 0 then x % 2 == 1 else HasBit(x / 2, i - 1)
  }

  /** BFR-id k is present in bit string x: ids start at 1, bit 0 belongs to id 1. */
  predicate HasId(x: nat, id: int) {
    id >= 1 && HasBit(x, id - 1)
  }

  /** `int(2 ** (id - 1))`: for ids below 1 the power is a fraction and truncates to 0. */
  function IdToBitstring(id: int): nat {
    if id >= 1 then Pow2(id - 1) else 0
  }

  /** Bitwise OR (`|`). */
  function Or(a: nat, b: nat): (r: nat)
    ensures forall i: nat :: HasBit(r, i) <==> HasBit(a, i) || HasBit(b, i)
    decreases a + b
  {
    if a == 0 && b == 0 then 0
    else
      var rest := Or(a / 2, b / 2);
      var r := 2 * rest + (if a % 2 == 1 || b % 2 == 1 then 1 else 0);
      assert forall i: nat :: HasBit(r, i + 1) <==> HasBit(rest, i) by {
        forall i: nat ensures HasBit(r, i + 1) <==> HasBit(rest, i) {
          assert r / 2 == rest;
        }
      }
      r
  }

  /** Bitwise AND (`&`). */
  function And(a: nat, b: nat): (r: nat)
    ensures forall i: nat :: HasBit(r, i) <==> HasBit(a, i) && HasBit(b, i)
    decreases a + b
  {
    if a == 0 || b == 0 then
      assert forall i: nat :: !HasBit(0, i) by {
        forall i: nat ensures !HasBit(0, i) {
          ZeroBit(i);
        }
      }
      0
    else
      var rest := And(a / 2, b / 2);
      var r := 2 * rest + (if a % 2 == 1 && b % 2 == 1 then 1 else 0);
      assert forall i: nat :: HasBit(r, i + 1) <==> HasBit(rest, i) by {
        forall i: nat ensures HasBit(r, i + 1) <==> HasBit(rest, i) {
          assert r / 2 == rest;
        }
      }
      r
  }

  /** `reduce(ior, map(id_to_bitstring, ids), 0)`: the OR of the bits of a list of ids. */
  function OrIds(ids: seq<int>): (r: nat)
    ensures forall k: int :: HasId(r, k) <==> k >= 1 && k in ids
    ensures ids == [] ==> r == 0
  {
    if ids == [] then
      assert forall k: int :: !HasId(0, k) by {
        forall k: int ensures !HasId(0, k) {
          if k >= 1 {
            ZeroBit(k - 1);
          }
        }
      }
      0
    else
      var last := ids[|ids| - 1];
      var r := Or(OrIds(ids[..|ids| - 1]), IdToBitstring(last));
      IdToBitstringSingleBit(last);
      assert ids == ids[..|ids| - 1] + [last];
      var pre := OrIds(ids[..|ids| - 1]);
      forall k: int ensures HasId(r, k) <==> k >= 1 && k in ids {
        if k >= 1 {
          assert HasId(r, k) <==> HasBit(r, k - 1);
          assert HasBit(r, k - 1) <==> HasBit(pre, k - 1) || HasBit(IdToBitstring(last), k - 1);
          assert HasId(pre, k) <==> HasBit(pre, k - 1);
          assert HasId(IdToBitstring(last), k) <==> HasBit(IdToBitstring(last), k - 1);
        }
      }
      r
  }

  /** Every non-zero number has some bit set. */
  lemma {:induction false} NonZeroHasBit(x: nat)
    requires x != 0
    ensures exists i: nat :: HasBit(x, i)
    decreases x
  {
    if x % 2 == 1 {
      assert HasBit(x, 0);
    } else {
      NonZeroHasBit(x / 2);
      var i: nat :| HasBit(x / 2, i);
      assert HasBit(x, i + 1);
    }
  }

  /** Zero has no bit set. */
  lemma {:induction false} ZeroBit(i: nat)
    ensures !HasBit(0, i)
  {
    if i > 0 {
      ZeroBit(i - 1);
    }
  }

  /** `id_to_bitstring(k)` has exactly one bit set, at position k-1; for k < 1 it is 0. */
  lemma {:induction false} IdToBitstringSingleBit(k: int)
    ensures k >= 1 ==> forall i: nat :: HasBit(IdToBitstring(k), i) <==> i == k - 1
    ensures k < 1 ==> IdToBitstring(k) == 0
    ensures forall j: int :: HasId(IdToBitstring(k), j) <==> j >= 1 && j == k
  {
    if k >= 1 {
      Pow2Bits(k - 1);
    } else {
      assert IdToBitstring(k) == 0;
      forall j: int ensures !HasId(0, j) {
        if j >= 1 {
          ZeroBit(j - 1);
        }
      }
    }
  }

  lemma {:induction false} Pow2Bits(n: nat)
    ensures forall i: nat :: HasBit(Pow2(n), i) <==> i == n
  {
    if n == 0 {
      forall i: nat ensures HasBit(1, i) <==> i == 0 {
        if i > 0 {
          ZeroBit(i - 1);
        }
      }
    } else {
      Pow2Bits(n - 1);
      forall i: nat ensures HasBit(Pow2(n), i) <==> i == n {
        if i > 0 {
          assert Pow2(n) / 2 == Pow2(n - 1);
        }
      }
    }
  }

  /** Two bit strings with the same bits are equal. */
  lemma {:induction false} BitsExtensional(a: nat, b: nat)
    requires forall i: nat :: HasBit(a, i) == HasBit(b, i)
    ensures a == b
    decreases a + b
  {
    if a == 0 && b == 0 {
    } else if a == 0 {
      NonZeroHasBit(b);
      var i: nat :| HasBit(b, i);
      ZeroBit(i);
    } else if b == 0 {
      NonZeroHasBit(a);
      var i: nat :| HasBit(a, i);
      ZeroBit(i);
    } else {
      assert HasBit(a, 0) == HasBit(b, 0);
      forall i: nat ensures HasBit(a / 2, i) == HasBit(b / 2, i) {
        assert HasBit(a, i + 1) == HasBit(b, i + 1);
      }
      BitsExtensional(a / 2, b / 2);
    }
  }
}
