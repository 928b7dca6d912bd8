/** Bit strings that stand for sets of message numbers,
    from a base number on. */
module SeenBits {

  type Byte = bv8

  /** 1 << j. */
  function Mask(j: nat): Byte
    requires j < 8
  {
    if j == 0 then 1 else if j == 1 then 2 else if j == 2 then 4 else if j == 3 then 8
    else if j == 4 then 16 else if j == 5 then 32 else if j == 6 then 64 else 128
  }

  predicate Bit(b: Byte, j: nat)
    requires j < 8
  {
    (b & Mask(j)) != 0
  }

  lemma {:induction false} SomeBit(b: Byte)
    ensures b != 0 <==> exists j :: 0 <= j < 8 && Bit(b, j)
  {
    if b != 0 {
      assert Bit(b, 0) || Bit(b, 1) || Bit(b, 2) || Bit(b, 3) || Bit(b, 4) || Bit(b, 5) || Bit(b, 6) || Bit(b, 7);
    }
  }

  lemma {:induction false} SameBits(a: Byte, b: Byte)
    requires forall j :: 0 <= j < 8 ==> Bit(a, j) == Bit(b, j)
    ensures a == b
  {
    assert Bit(a, 0) == Bit(b, 0) && Bit(a, 1) == Bit(b, 1) && Bit(a, 2) == Bit(b, 2) && Bit(a, 3) == Bit(b, 3);
    assert Bit(a, 4) == Bit(b, 4) && Bit(a, 5) == Bit(b, 5) && Bit(a, 6) == Bit(b, 6) && Bit(a, 7) == Bit(b, 7);
  }

  /** Number x is in the bit string. */
  predicate Holds(base: nat, bstr: seq<Byte>, x: nat) {
    base <= x && (x - base) / 8 < |bstr| && Bit(bstr[(x - base) / 8], (x - base) % 8)
  }

  /** Number x is the bit of its weight: the byte, shifted down to it, is odd. */
  lemma {:induction false} HoldsBit(base: nat, bstr: seq<Byte>, x: nat)
    ensures Holds(base, bstr, x)
       <==> base <= x && (x - base) / 8 < |bstr| && (bstr[(x - base) / 8] >> ((x - base) % 8)) & 1 == 1
  {
    if base <= x && (x - base) / 8 < |bstr| { BitShifted(bstr[(x - base) / 8], (x - base) % 8); }
  }

  lemma {:induction false} BitShifted(b: Byte, j: nat)
    requires j < 8
    ensures Bit(b, j) <==> (b >> j) & 1 == 1
  {
    assert j == 0 || j == 1 || j == 2 || j == 3 || j == 4 || j == 5 || j == 6 || j == 7;
  }

  /** The byte is padded out to, and the bit is set; a byte that is not there yet reads as 0. */
  function SetAt(bstr: seq<Byte>, bo: nat, bit: nat): (r: seq<Byte>)
    requires |bstr| - 1 <= bo && bit < 8 && bstr != []
    ensures |r| == bo + 1
  {
    if bo == |bstr| - 1 then bstr[bo := bstr[bo] | Mask(bit)]
    else bstr + seq(bo - |bstr|, _ => 0) + [Mask(bit)]
  }

  lemma {:induction false} SetAtHolds(base: nat, bstr: seq<Byte>, n: nat, x: nat)
    requires bstr != [] && |bstr| - 1 <= n / 8
    ensures Holds(base, SetAt(bstr, n / 8, n % 8), x) <==> Holds(base, bstr, x) || x == base + n
  {
    var r := SetAt(bstr, n / 8, n % 8);
    if base <= x && (x - base) / 8 < |r| {
      var i, j := (x - base) / 8, (x - base) % 8;
      assert x - base == 8 * i + j && n == 8 * (n / 8) + n % 8;
    }
  }

  /** Two bit strings that hold the same numbers, and neither of which ends in a zero byte, are the same. */
  lemma {:induction false} HoldsDetermines(base: nat, a: seq<Byte>, b: seq<Byte>)
    requires a != [] && b != [] && a[|a| - 1] != 0 && b[|b| - 1] != 0
    requires forall x :: Holds(base, a, x) <==> Holds(base, b, x)
    ensures a == b
  {
    NotShorter(base, a, b);
    NotShorter(base, b, a);
    forall i | 0 <= i < |a| ensures a[i] == b[i] {
      forall j | 0 <= j < 8 ensures Bit(a[i], j) == Bit(b[i], j) {
        var x := base + 8 * i + j;
        assert (x - base) / 8 == i && (x - base) % 8 == j;
        assert Holds(base, a, x) <==> Holds(base, b, x);
      }
      SameBits(a[i], b[i]);
    }
  }

  lemma {:induction false} NotShorter(base: nat, a: seq<Byte>, b: seq<Byte>)
    requires a != [] && a[|a| - 1] != 0
    requires forall x :: Holds(base, a, x) ==> Holds(base, b, x)
    ensures |a| <= |b|
  {
    SomeBit(a[|a| - 1]);
    var j :| 0 <= j < 8 && Bit(a[|a| - 1], j);
    var x := base + 8 * (|a| - 1) + j;
    assert (x - base) / 8 == |a| - 1 && (x - base) % 8 == j;
    assert Holds(base, a, x);
  }
}
