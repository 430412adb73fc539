/** What a TLB entry lets through (simctty/mmu.cc): the tag test, the permission bits by their
    weights (OpenRISC 1000 Architecture Manual 1.0, chapter 8), and the frame. */
module Permissions {
  import opened Words
  import opened Exceptions
  import opened Translation

  /** The bit of a register that has this weight. */
  predicate Has(x: uint32, weight: nat)
    requires weight > 0
  {
    x / weight % 2 == 1
  }

  /** The valid bit and the page number in the match register of the page's set. */
  predicate Tagged(tlb: Tlb, a: uint32)
    requires tlb.Valid()
  {
    var mr := tlb.matches[a / 0x2000 % 64];
    mr % 2 == 1 && mr / 0x2000 == a / 0x2000
  }

  /** The translate register of the page's set. */
  function EntryOf(tlb: Tlb, a: uint32): uint32
    requires tlb.Valid()
  {
    tlb.translates[a / 0x2000 % 64]
  }

  /** The offset within the page, in the frame of the entry. */
  predicate InFrame(phy: uint32, tr: uint32, a: uint32) {
    phy / 0x2000 == tr / 0x2000 && phy % 0x2000 == a % 0x2000
  }

  lemma FrameSplit(tr: uint32, a: uint32)
    ensures var phy := PageOf(tr) + a % PAGE_SIZE;
            phy < 0x1_0000_0000 && InFrame(phy, tr, a)
  {
    FrameJoin(tr, a);
    QuotientUnique(PageOf(tr) + a % PAGE_SIZE, PAGE_SIZE, tr / PAGE_SIZE, a % PAGE_SIZE);
  }

  /** An MMU that is off translates nothing and refuses nothing. */
  lemma OffMapsItself(tlb: Tlb, kind: Kind, a: uint32, sm: bool, write: bool)
    requires tlb.Valid()
    ensures Translate(tlb, false, kind, a, sm, write) == Mapped(a)
  {
  }

  /** Without the tag: the miss exception of the MMU, whatever the entry permits. */
  lemma UntaggedMisses(tlb: Tlb, a: uint32, sm: bool, write: bool)
    requires tlb.Valid() && !Tagged(tlb, a)
    ensures Translate(tlb, true, DataMmu, a, sm, write) == Missed(DtlbMiss)
    ensures Translate(tlb, true, InstructionMmu, a, sm, write) == Missed(ItlbMiss)
  {
  }

  /** With the tag: a frame or a page fault, nothing else. */
  lemma TaggedMapsOrFaults(tlb: Tlb, kind: Kind, a: uint32, sm: bool, write: bool)
    requires tlb.Valid() && Tagged(tlb, a)
    ensures match Translate(tlb, true, kind, a, sm, write)
            case Mapped(phy) => InFrame(phy, EntryOf(tlb, a), a)
            case Missed(e) => e == if kind == DataMmu then DataPageFault else InstructionPageFault
  {
    FrameSplit(EntryOf(tlb, a), a);
    hide Permits, InFrame;
  }

  /** Which of the two it is, for each kind of access. */
  lemma MapsExactly(tlb: Tlb, a: uint32)
    requires tlb.Valid() && Tagged(tlb, a)
    ensures var tr := EntryOf(tlb, a);
            && (Translate(tlb, true, DataMmu, a, false, false).Mapped? <==> Has(tr, 0x40))
            && (Translate(tlb, true, DataMmu, a, false, true).Mapped? <==> Has(tr, 0x80))
            && (Translate(tlb, true, DataMmu, a, true, false).Mapped? <==> Has(tr, 0x100) || Has(tr, 0x40))
            && (Translate(tlb, true, DataMmu, a, true, true).Mapped? <==> Has(tr, 0x200) || Has(tr, 0x80))
            && forall sm ::
                 Translate(tlb, true, InstructionMmu, a, sm, false).Mapped? <==> Has(tr, 0x40) || Has(tr, 0x80)
  {
    hide PageOf;
  }

  /** Entries that agree in the one bit that grants the access, and in their frames, are the same
      to the user: no other bit of an entry matters to his loads and stores. */
  lemma UserBitsAlone(tlb: Tlb, tlb': Tlb, a: uint32)
    requires tlb.Valid() && tlb'.Valid() && tlb'.matches == tlb.matches
    requires EntryOf(tlb, a) / 0x2000 == EntryOf(tlb', a) / 0x2000
    ensures (Has(EntryOf(tlb, a), 0x40) <==> Has(EntryOf(tlb', a), 0x40))
            ==> Translate(tlb, true, DataMmu, a, false, false) == Translate(tlb', true, DataMmu, a, false, false)
    ensures (Has(EntryOf(tlb, a), 0x80) <==> Has(EntryOf(tlb', a), 0x80))
            ==> Translate(tlb, true, DataMmu, a, false, true) == Translate(tlb', true, DataMmu, a, false, true)
  {
    hide InFrame;
    SameFrame(EntryOf(tlb, a), EntryOf(tlb', a));
    hide PageOf;
  }

  lemma SameFrame(tr: uint32, tr': uint32)
    requires tr / 0x2000 == tr' / 0x2000
    ensures PageOf(tr) == PageOf(tr')
  {
  }

  /** Whatever the user may do the supervisor may, to the same address; fetches do not ask who. */
  lemma SupervisorCoversUser(tlb: Tlb, enabled: bool, a: uint32, write: bool)
    requires tlb.Valid()
    ensures var user := Translate(tlb, enabled, DataMmu, a, false, write);
            user.Mapped? ==> Translate(tlb, enabled, DataMmu, a, true, write) == user
    ensures Translate(tlb, enabled, InstructionMmu, a, true, write)
            == Translate(tlb, enabled, InstructionMmu, a, false, write)
  {
    hide PageOf;
  }
}
