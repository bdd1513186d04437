/** 64-bit machine words, addresses and page arithmetic shared by the memory modules.

    A word that the kernel takes apart bit by bit (a page-table entry or a flags
    argument) is the sequence of its 64 bits, bit 0 first. A word that the kernel only
    adds, shifts and compares (an address, a page number, a clock value) is a number. */
module Words {

  const U64_MAX: nat := 0xffff_ffff_ffff_ffff
  const PAGE_SIZE: nat := 4096

  datatype Option<+T> = None | Some(value: T)

  // ---------------------------------------------------------------- bit words

  type Word = w: seq<bool> | |w| == 64 witness seq(64, _ => false)

  function Zero(): Word { seq(64, _ => false) }

  /** 1ull << k */
  function Bit(k: nat): Word
    requires k < 64
  {
    seq(64, i => i == k)
  }

  function Or(a: Word, b: Word): Word {
    seq(64, i requires 0 <= i < 64 => a[i] || b[i])
  }

  function And(a: Word, b: Word): Word {
    seq(64, i requires 0 <= i < 64 => a[i] && b[i])
  }

  function Not(a: Word): Word {
    seq(64, i requires 0 <= i < 64 => !a[i])
  }

  // ---------------------------------------------------------------- bits and numbers

  function Pow2(k: nat): (r: nat)
    ensures r > 0
  {
    if k == 0 then 1 else 2 * Pow2(k - 1)
  }

  /** The number whose binary digits, least significant first, are s. */
  function Nat(s: seq<bool>): nat {
    if s == [] then 0 else (if s[0] then 1 else 0) + 2 * Nat(s[1..])
  }

  /** The k low binary digits of n, least significant first. */
  function Bits(n: nat, k: nat): (s: seq<bool>)
    ensures |s| == k
  {
    if k == 0 then [] else [n % 2 == 1] + Bits(n / 2, k - 1)
  }

  lemma {:induction false} NatOfBits(n: nat, k: nat)
    requires n < Pow2(k)
    ensures Nat(Bits(n, k)) == n
  {
    if k != 0 {
      NatOfBits(n / 2, k - 1);
      assert Bits(n, k)[1..] == Bits(n / 2, k - 1);
    }
  }

  lemma {:induction false} NatInjective(a: seq<bool>, b: seq<bool>)
    requires |a| == |b| && Nat(a) == Nat(b)
    ensures a == b
  {
    if a != [] {
      NatInjective(a[1..], b[1..]);
      assert a == [a[0]] + a[1..] && b == [b[0]] + b[1..];
    }
  }

  /** Digits above the k-th are zero exactly when the number is below 2^k. */
  lemma {:induction false} NatOfPadded(s: seq<bool>, t: seq<bool>)
    requires forall i :: 0 <= i < |t| ==> !t[i]
    ensures Nat(s + t) == Nat(s)
  {
    if s != [] {
      assert (s + t)[1..] == s[1..] + t;
      NatOfPadded(s[1..], t);
    } else if t != [] {
      assert s + t == t;
      assert t[1..] == [] + t[1..];
      NatOfPadded([], t[1..]);
    } else {
      assert s + t == [];
    }
  }

  lemma {:induction false} BitsPadded(n: nat, k: nat, j: nat)
    requires n < Pow2(k) && k <= j
    ensures Bits(n, j) == Bits(n, k) + seq(j - k, _ => false)
  {
    if k == 0 {
      ZeroBits(j);
    } else {
      BitsPadded(n / 2, k - 1, j - 1);
    }
  }

  lemma {:induction false} ZeroBits(j: nat)
    ensures Bits(0, j) == seq(j, _ => false)
  {
    if j != 0 { ZeroBits(j - 1); }
  }

  lemma {:induction false} NatShifted(k: nat, s: seq<bool>)
    ensures Nat(seq(k, _ => false) + s) == Scale(k, Nat(s))
  {
    var z := seq(k, _ => false);
    if k == 0 {
      assert z + s == s;
    } else {
      assert (z + s)[1..] == seq(k - 1, _ => false) + s;
      NatShifted(k - 1, s);
    }
  }

  /** x doubled k times. */
  function Scale(k: nat, x: nat): nat {
    if k == 0 then x else 2 * Scale(k - 1, x)
  }

  lemma ScaleByPage(x: nat)
    ensures Scale(12, x) == x * PAGE_SIZE
  {
    ScaleThrice(9, x);
    ScaleThrice(6, x);
    ScaleThrice(3, x);
    ScaleThrice(0, x);
  }

  lemma ScaleThrice(k: nat, x: nat)
    ensures Scale(k + 3, x) == 8 * Scale(k, x)
  {
    assert Scale(k + 3, x) == 2 * Scale(k + 2, x) == 4 * Scale(k + 1, x);
  }

  lemma Pow2Five(k: nat)
    ensures Pow2(k + 5) == 32 * Pow2(k)
  {
    assert Pow2(k + 5) == 2 * Pow2(k + 4) == 4 * Pow2(k + 3);
    assert Pow2(k + 3) == 2 * Pow2(k + 2) == 4 * Pow2(k + 1);
  }

  lemma Pow2Ten(k: nat)
    ensures Pow2(k + 10) == 1024 * Pow2(k)
  {
    Pow2Five(k);
    Pow2Five(k + 5);
  }

  lemma Pow2Forty()
    ensures Pow2(40) == 0x100_0000_0000
  {
    Pow2Ten(0);
    Pow2Ten(10);
    Pow2Ten(20);
    Pow2Ten(30);
  }

  // ---------------------------------------------------------------- page arithmetic

  /** x & ~(PAGE_SIZE - 1) */
  function AlignDown(x: nat): nat { x - x % PAGE_SIZE }

  /** (x + PAGE_SIZE - 1) & ~(PAGE_SIZE - 1); callers keep the sum below 2^64. */
  function AlignUp(x: nat): nat { AlignDown(x + PAGE_SIZE - 1) }

  function Min(a: nat, b: nat): nat { if a <= b then a else b }

  function Max(a: nat, b: nat): nat { if a >= b then a else b }
}
