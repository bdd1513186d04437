/** Page-table entries: how the kernel builds and reads them, and how the processor reads
    them (Intel SDM Vol. 3A, section 4.5). */
module Pte {
  import opened Words

  const PTE_P := 0     // present
  const PTE_W := 1     // writable
  const PTE_U := 2     // user
  const PTE_PWT := 3
  const PTE_PCD := 4
  const PTE_PS := 7    // large page, in a page-directory-pointer or page-directory entry
  const PTE_G := 8     // global
  const PTE_NX := 63   // execute-disable

  /** ~0xfff */
  function AddrMask(): Word { seq(64, i => 12 <= i) }

  predicate Present(e: Word) { e[PTE_P] }

  /** Page number of the table the kernel reaches through e: (e & ~0xfff) / PAGE_SIZE. */
  function SwFrame(e: Word): nat { Nat(e[12..]) }

  /** Page number the processor takes from e: bits 51:12. */
  function HwFrame(e: Word): nat { Nat(e[12..52]) }

  /** The processor follows e from a table at depth d (0 is the PML4) to a lower table. */
  predicate Follows(d: nat, e: Word) { Present(e) && !(d > 0 && e[PTE_PS]) }

  /** e is a pointer that kernel and processor read alike: no large-page bit, and nothing
      above the address field. */
  predicate TablePointer(e: Word) {
    Present(e) && !e[PTE_PS] && forall i :: 52 <= i < 64 ==> !e[i]
  }

  /** The number phys & ~0xfff, as a word. */
  function Address(phys: nat): Word { And(Bits(phys, 64), AddrMask()) }

  /** new_table | PTE_P | PTE_W | (flags & PTE_U) */
  function TableEntry(frame: nat, flags: Word): Word {
    Or(Or(Or(Address(frame * PAGE_SIZE), Bit(PTE_P)), Bit(PTE_W)), And(flags, Bit(PTE_U)))
  }

  /** The leaf as first stored: (phys & ~0xfff) | (flags & ~PTE_NX) | PTE_P */
  function LeafWithoutNx(phys: nat, flags: Word): Word {
    Or(Or(Address(phys), And(flags, Not(Bit(PTE_NX)))), Bit(PTE_P))
  }

  /** The leaf as left in the table, after the conditional |= PTE_NX. */
  function Leaf(phys: nat, flags: Word): Word {
    if flags[PTE_NX] then Or(LeafWithoutNx(phys, flags), Bit(PTE_NX)) else LeafWithoutNx(phys, flags)
  }

  /** flags & ~(PTE_PCD | PTE_PWT) */
  function StripCache(flags: Word): Word { And(flags, Not(Or(Bit(PTE_PCD), Bit(PTE_PWT)))) }

  /** The mask in SwFrame is the masked address divided by the page size. */
  lemma SwFrameIsMaskedAddress(e: Word)
    ensures Nat(And(e, AddrMask())) == SwFrame(e) * PAGE_SIZE
  {
    assert And(e, AddrMask()) == seq(12, _ => false) + e[12..];
    NatShifted(12, e[12..]);
    ScaleByPage(SwFrame(e));
  }

  function Halve(n: nat, k: nat): nat {
    if k == 0 then n else Halve(n / 2, k - 1)
  }

  lemma HalveThrice(n: nat, k: nat)
    ensures Halve(n, k + 3) == Halve(n / 8, k)
  {
    assert Halve(n, k + 3) == Halve(n / 2, k + 2) == Halve(n / 2 / 2, k + 1) == Halve(n / 2 / 2 / 2, k);
    assert n / 2 / 2 / 2 == n / 8;
  }

  lemma {:induction false} BitsDropped(n: nat, k: nat, w: nat)
    requires k <= w
    ensures Bits(n, w)[k..] == Bits(Halve(n, k), w - k)
  {
    if k != 0 {
      BitsDropped(n / 2, k - 1, w - 1);
      assert Bits(n, w)[k..] == Bits(n / 2, w - 1)[k - 1..];
    }
  }

  lemma PageBits(phys: nat)
    ensures Bits(phys, 64)[12..] == Bits(phys / PAGE_SIZE, 52)
  {
    BitsDropped(phys, 12, 64);
    HalveThrice(phys, 9);
    HalveThrice(phys / 8, 6);
    HalveThrice(phys / 8 / 8, 3);
    HalveThrice(phys / 8 / 8 / 8, 0);
    DivideByPage(phys);
  }

  lemma DivideByPage(n: nat)
    ensures n / 8 / 8 / 8 / 8 == n / PAGE_SIZE
  {
    assert n / 8 / 8 == n / 64;
    assert n / 64 / 8 == n / 512;
    assert n / 512 / 8 == n / 4096;
  }

  /** The bits of an address below 2^52, read back above bit 12. */
  lemma AddressBits(phys: nat)
    requires phys / PAGE_SIZE < 0x100_0000_0000
    ensures Address(phys)[12..52] == Bits(phys / PAGE_SIZE, 40)
    ensures Nat(Bits(phys / PAGE_SIZE, 40)) == phys / PAGE_SIZE
    ensures forall i :: 0 <= i < 12 || 52 <= i < 64 ==> !Address(phys)[i]
  {
    var f, a := phys / PAGE_SIZE, Address(phys);
    PageBits(phys);
    Pow2Forty();
    BitsPadded(f, 40, 52);
    NatOfBits(f, 40);
    assert a[12..] == Bits(phys, 64)[12..] == Bits(f, 40) + seq(12, _ => false);
    assert a[12..52] == a[12..][..40] == Bits(f, 40);
    forall i | 52 <= i < 64 ensures !a[i] { assert a[i] == a[12..][i - 12]; }
  }

  /** A table entry made by the kernel leads kernel and processor to the new table. */
  lemma TableEntryReadsBack(frame: nat, flags: Word)
    requires frame < 0x100_0000_0000
    ensures TablePointer(TableEntry(frame, flags))
    ensures SwFrame(TableEntry(frame, flags)) == HwFrame(TableEntry(frame, flags)) == frame
    ensures TableEntry(frame, flags)[PTE_W] && (TableEntry(frame, flags)[PTE_U] <==> flags[PTE_U])
  {
    var e := TableEntry(frame, flags);
    AddressBits(frame * PAGE_SIZE);
    assert frame * PAGE_SIZE / PAGE_SIZE == frame;
    SameField(e, Address(frame * PAGE_SIZE));
    SwIsHw(e);
  }

  /** Every bit of a table entry made by the kernel: present, writable, user as asked, and
      the frame; nothing else. */
  lemma TableEntryBits(frame: nat, flags: Word, i: nat)
    requires i < 64 && frame < 0x100_0000_0000
    ensures TableEntry(frame, flags)[i]
       <==> i == 0 || i == 1 || (i == 2 && flags[2]) || (12 <= i < 52 && Bits(frame, 40)[i - 12])
  {
    AddressBits(frame * PAGE_SIZE);
    assert frame * PAGE_SIZE / PAGE_SIZE == frame;
    if 12 <= i < 52 {
      assert Address(frame * PAGE_SIZE)[12..52][i - 12] == Address(frame * PAGE_SIZE)[i];
    }
  }

  lemma SameField(a: Word, b: Word)
    requires forall i :: 12 <= i < 52 ==> a[i] == b[i]
    ensures a[12..52] == b[12..52]
  {
    forall i | 0 <= i < 40 ensures a[12..52][i] == b[12..52][i] {
      assert a[12..52][i] == a[i + 12] && b[12..52][i] == b[i + 12];
    }
  }

  /** Kernel and processor agree on every table pointer. */
  lemma SwIsHw(e: Word)
    requires TablePointer(e)
    ensures SwFrame(e) == HwFrame(e)
  {
    assert e[12..] == e[12..52] + e[52..];
    NatOfPadded(e[12..52], e[52..]);
  }

  /** Every bit of a leaf: the requested flags, the present bit, and the address. */
  lemma LeafBits(phys: nat, flags: Word, i: nat)
    requires i < 64
    ensures Leaf(phys, flags)[i] <==> i == PTE_P || flags[i] || Address(phys)[i]
  {
  }

  /** The leaf vmm_map_page stores, bit by bit: the requested flags without PCD and PWT, the
      present bit, and the address. */
  lemma MappedLeafBits(phys: nat, flags: Word, i: nat)
    requires i < 64 && phys / PAGE_SIZE < 0x100_0000_0000
    ensures Leaf(phys, StripCache(flags))[i]
       <==> i == 0 || (flags[i] && i != 3 && i != 4)
            || (12 <= i < 52 && Bits(phys / PAGE_SIZE, 40)[i - 12])
  {
    LeafBits(phys, StripCache(flags), i);
    AddressBits(phys);
    if 12 <= i < 52 {
      assert Address(phys)[12..52][i - 12] == Address(phys)[i];
    }
  }

  /** The frame a leaf maps is the requested one exactly when the flags argument sets no
      address bit that the address itself leaves clear; the kernel does not mask them. */
  lemma LeafFrame(phys: nat, flags: Word)
    requires phys / PAGE_SIZE < 0x100_0000_0000
    ensures HwFrame(Leaf(phys, flags)) == phys / PAGE_SIZE
        <==> forall i :: 12 <= i < 52 && flags[i] ==> Address(phys)[i]
  {
    var e, a := Leaf(phys, flags), Address(phys);
    AddressBits(phys);
    if forall i :: 12 <= i < 52 && flags[i] ==> a[i] {
      SameField(e, a);
    }
    if HwFrame(e) == phys / PAGE_SIZE {
      NatInjective(e[12..52], a[12..52]);
      forall i | 12 <= i < 52 && flags[i] ensures a[i] {
        assert e[12..52][i - 12] == a[12..52][i - 12];
      }
    }
  }

  lemma EvenBits(n: nat)
    requires n % 2 == 0
    ensures !Bits(n, 40)[0]
  {
  }

  /** As when the flags argument has bit 12 set and the address has not: frame 2 is asked
      for, and another one mapped. */
  lemma FlagsChangeFrame()
    ensures HwFrame(Leaf(2 * PAGE_SIZE, Bit(12))) != 2
  {
    var phys := 2 * PAGE_SIZE;
    LeafFrame(phys, Bit(12));
    AddressBits(phys);
    EvenBits(2);
    hide Leaf, HwFrame, Address, Nat, Bits;
    assert phys / PAGE_SIZE == 2;
    assert Address(phys)[12] == Address(phys)[12..52][0];
  }
}
