/** kernel/include/cpu/mmu.h: fields of addresses and of page table entries, 32-bit paging. */
module Mmu {
  import opened Bits

  const PRESENT: nat := 1

  /** pde_index */
  function PdeIndex(vaddr: nat): nat {
    Shr(vaddr, 22)
  }

  /** pte_index */
  function PteIndex(vaddr: nat): nat {
    And(Shr(vaddr, 12), 0x3FF)
  }

  /** pde_paddr and pte_paddr: the 20-bit frame field, shifted left by 12. */
  function FrameAddr(entry: nat): nat {
    Shr(entry, 12) % 0x10_0000 * PAGE
  }

  /** get_pte_perm */
  function Perm(entry: nat): nat {
    And(entry, 0x3FF)
  }

  /** The present bit of an entry. */
  predicate Present(entry: nat) {
    entry % 2 == 1
  }

  /** `paddr | perm | PTE_P` */
  function Entry(paddr: nat, perm: nat): nat {
    Or(Or(paddr, perm), PRESENT)
  }

  lemma {:induction false} ShrIsDiv(x: nat, k: nat)
    ensures Shr(x, k) == x / Pow2(k)
    decreases k
  {
    if k > 0 {
      ShrIsDiv(x / 2, k - 1);
      HalfMod(x, Pow2(k - 1));
    }
  }

  /** A 32-bit address splits into directory index, table index and offset. */
  lemma AddressParts(vaddr: nat)
    requires vaddr < TWO_32
    ensures PdeIndex(vaddr) == vaddr / 0x40_0000 < 1024 && PteIndex(vaddr) == vaddr / PAGE % 1024
    ensures vaddr == (PdeIndex(vaddr) * 1024 + PteIndex(vaddr)) * PAGE + vaddr % PAGE
    ensures And(vaddr, PAGE - 1) == vaddr % PAGE
  {
    hide Shr, And, Pow2;
    Powers();
    ShrIsDiv(vaddr, 22);
    ShrIsDiv(vaddr, 12);
    LowMask(vaddr / PAGE, 10);
    LowMask(vaddr, 12);
    Split(vaddr);
  }

  lemma Split(vaddr: nat)
    ensures vaddr / 0x40_0000 == vaddr / PAGE / 1024
    ensures vaddr == (vaddr / 0x40_0000 * 1024 + vaddr / PAGE % 1024) * PAGE + vaddr % PAGE
  {
  }

  lemma EntryField(entry: nat)
    requires entry < TWO_32
    ensures FrameAddr(entry) == entry / PAGE * PAGE == entry - entry % PAGE && Perm(entry) == entry % 1024
  {
    Powers();
    ShrIsDiv(entry, 12);
    LowMask(entry, 10);
    SmallMod(entry / PAGE, 0x10_0000);
  }

  lemma OrOne(x: nat)
    ensures Or(x, 1) == if x % 2 == 1 then x else x + 1
  {
    OrZero(x / 2);
  }

  /** Composing an entry from an aligned frame address and permission bits and reading its fields
      back: the entry is present, and frame and low permission bits are the given ones. */
  lemma EntryRoundTrip(paddr: nat, perm: nat)
    requires paddr < TWO_32 && paddr % PAGE == 0 && perm < PAGE
    ensures Entry(paddr, perm) < TWO_32 && Present(Entry(paddr, perm)) && FrameAddr(Entry(paddr, perm)) == paddr
    ensures Entry(paddr, perm) == paddr + Or(perm, PRESENT) && Or(perm, PRESENT) < PAGE
    ensures Perm(Entry(paddr, perm)) == Or(perm, PRESENT) % 1024
  {
    hide *;
    EntryValue(paddr, perm);
    AlignedSum(paddr, Or(perm, PRESENT));
    EntryField(Entry(paddr, perm));
    PresentIs(Entry(paddr, perm));
  }

  lemma PresentIs(entry: nat)
    ensures Present(entry) <==> entry % 2 == 1
  {
  }

  lemma EntryValue(paddr: nat, perm: nat)
    requires paddr % PAGE == 0 && perm < PAGE
    ensures Entry(paddr, perm) == paddr + Or(perm, PRESENT) && Or(perm, PRESENT) < PAGE && Or(perm, PRESENT) % 2 == 1
    ensures PAGE == 4096
  {
    hide Or, Pow2;
    Powers();
    OrDisjoint(paddr, perm, 12);
    EvenSum(paddr, perm);
    OrOne(paddr + perm);
    OrOne(perm);
  }

  lemma EvenSum(paddr: nat, perm: nat)
    requires paddr % PAGE == 0
    ensures (paddr + perm) % 2 == perm % 2
  {
    var q := paddr / PAGE;
    assert paddr == q * PAGE;
    DivModUnique(paddr + perm, 2048 * q + perm / 2, perm % 2, 2);
  }

  lemma AlignedSum(paddr: nat, low: nat)
    requires paddr % PAGE == 0 && low < PAGE && paddr < TWO_32
    ensures PAGE == 4096
    ensures (paddr + low) / PAGE * PAGE == paddr && (paddr + low) % PAGE == low && paddr + low < TWO_32
    ensures (paddr + low) % 1024 == low % 1024 && paddr % 2 == 0 && (paddr + low) % 2 == low % 2
  {
    var q := paddr / PAGE;
    assert paddr == q * PAGE;
    DivModUnique(paddr + low, q, low, PAGE);
    DivModUnique(paddr + low, 4 * q + low / 1024, low % 1024, 1024);
    DivModUnique(paddr, 2048 * q, 0, 2);
    DivModUnique(paddr + low, 2048 * q + low / 2, low % 2, 2);
  }

  /** `(i << 22) | (j << 12)` */
  function PageAddr(i: nat, j: nat): nat {
    Or(i * 0x40_0000, j * PAGE)
  }

  lemma PageAddrParts(i: nat, j: nat)
    requires i < 1024 && j < 1024
    ensures PageAddr(i, j) == (i * 1024 + j) * PAGE < TWO_32
    ensures PdeIndex(PageAddr(i, j)) == i && PteIndex(PageAddr(i, j)) == j
  {
    Powers();
    OrDisjoint(i * 0x40_0000, j * PAGE, 22);
    AddressParts(PageAddr(i, j));
  }
}
