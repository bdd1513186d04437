/** One byte of the page bitmap: 1u << k, and setting, clearing and testing a bit. */
module Bitmap {

  /** 1u << k */
  function One(k: nat): bv8
    requires k < 8
  {
    if k == 0 then 1 else One(k - 1) << 1
  }

  /** b >> k */
  function ShiftRight(b: bv8, k: nat): bv8
    requires k < 8
  {
    if k == 0 then b else ShiftRight(b, k - 1) >> 1
  }

  predicate Test(b: bv8, k: nat)
    requires k < 8
  {
    ShiftRight(b, k) & 1 == 1
  }

  lemma OneIs()
    ensures One(0) == 1 && One(1) == 2 && One(2) == 4 && One(3) == 8
    ensures One(4) == 16 && One(5) == 32 && One(6) == 64 && One(7) == 128
  {
    assert One(3) == 8;
    assert One(6) == 64;
  }

  lemma ShiftRightIs(b: bv8)
    ensures ShiftRight(b, 0) == b && ShiftRight(b, 1) == b >> 1
    ensures ShiftRight(b, 2) == b >> 2 && ShiftRight(b, 3) == b >> 3
    ensures ShiftRight(b, 4) == b >> 4 && ShiftRight(b, 5) == b >> 5
    ensures ShiftRight(b, 6) == b >> 6 && ShiftRight(b, 7) == b >> 7
  {
    ShiftTwice(b);
    assert ShiftRight(b, 1) == b >> 1;
    assert ShiftRight(b, 2) == b >> 2;
    assert ShiftRight(b, 3) == b >> 3;
    assert ShiftRight(b, 4) == b >> 4;
    assert ShiftRight(b, 5) == b >> 5;
    assert ShiftRight(b, 6) == b >> 6;
  }

  lemma ShiftTwice(b: bv8)
    ensures (b >> 1) >> 1 == b >> 2 && (b >> 2) >> 1 == b >> 3 && (b >> 3) >> 1 == b >> 4
    ensures (b >> 4) >> 1 == b >> 5 && (b >> 5) >> 1 == b >> 6 && (b >> 6) >> 1 == b >> 7
  {
  }

  lemma ShiftedBit(b: bv8)
    ensures b & 1 == 1 <==> b & 1 != 0
    ensures (b >> 1) & 1 == 1 <==> b & 2 != 0
    ensures (b >> 2) & 1 == 1 <==> b & 4 != 0
    ensures (b >> 3) & 1 == 1 <==> b & 8 != 0
    ensures (b >> 4) & 1 == 1 <==> b & 16 != 0
    ensures (b >> 5) & 1 == 1 <==> b & 32 != 0
    ensures (b >> 6) & 1 == 1 <==> b & 64 != 0
    ensures (b >> 7) & 1 == 1 <==> b & 128 != 0
  {
  }

  lemma TestIsMask(b: bv8, k: nat)
    requires k < 8
    ensures Test(b, k) <==> b & One(k) != 0
  {
    OneIs();
    ShiftRightIs(b);
    ShiftedBit(b);
  }

  predicate SingleBit(x: bv8) {
    x == 1 || x == 2 || x == 4 || x == 8 || x == 16 || x == 32 || x == 64 || x == 128
  }

  lemma MaskSet(b: bv8, x: bv8, y: bv8)
    requires SingleBit(x) && SingleBit(y)
    ensures (b | x) & y != 0 <==> x == y || b & y != 0
    ensures b & !x & y != 0 <==> x != y && b & y != 0
  {
  }

  lemma OneInjective(j: nat, k: nat)
    requires j < 8 && k < 8
    ensures SingleBit(One(k))
    ensures One(j) == One(k) <==> j == k
  {
    OneIs();
  }

  /** Setting bit k changes the test of bit k and of no other bit. */
  lemma SetBit(b: bv8, k: nat, j: nat)
    requires k < 8 && j < 8
    ensures Test(b | One(k), j) <==> j == k || Test(b, j)
  {
    OneInjective(j, k);
    OneInjective(k, j);
    MaskSet(b, One(k), One(j));
    TestIsMask(b, j);
    TestIsMask(b | One(k), j);
  }

  /** Clearing bit k changes the test of bit k and of no other bit. */
  lemma ClearBit(b: bv8, k: nat, j: nat)
    requires k < 8 && j < 8
    ensures Test(b & !One(k), j) <==> j != k && Test(b, j)
  {
    OneInjective(j, k);
    OneInjective(k, j);
    MaskSet(b, One(k), One(j));
    TestIsMask(b, j);
    TestIsMask(b & !One(k), j);
  }

  lemma AllSet(j: nat)
    requires j < 8
    ensures Test(0xff, j)
  {
    TestIsMask(0xff, j);
    OneIs();
  }
}
