/** Virtual addresses that share RAM (simctty/mmu.cc): after any run of stores through any mappings
    and page caches, a load through any other mapping reads the latest bytes. */
module Aliases {
  import opened Words
  import opened Memory
  import opened Bus
  import opened Translation

  /** One store through a data MMU in some state. */
  datatype VirtualStore = VirtualStore(u: MmuState, sm: bool, width: nat, address: uint32, value: uint32)
  {
    /** It is aligned and goes to RAM. */
    predicate ToRam() {
      && u.Valid() && u.kind == DataMmu && width in {1, 2, 4} && address % width == 0
      && u.Map(address, sm, true).Mapped? && u.Map(address, sm, true).phy < RAM_SIZE
    }

    /** The store of the physical memory that it stands for. */
    function Physical(): (op: StoreOp)
      requires ToRam()
      ensures ValidStore(op, RAM_SIZE)
    {
      MappedAligned(u.tlb, u.enabled, address, width, sm, true);
      AlignedEnd(u.Map(address, sm, true).phy, width);
      StoreOp(width, u.Map(address, sm, true).phy, value)
    }
  }

  /** The bus after stores in order. */
  function StoreAll(bus: BusState, es: seq<VirtualStore>): (r: BusState)
    requires bus.Valid() && forall e <- es :: e.ToRam()
    ensures r.Valid()
  {
    if es == [] then bus
    else
      var before := StoreAll(bus, es[..|es| - 1]);
      var e := es[|es| - 1];
      StoresPhysically(before, e);
      e.u.Store(before, e.width, e.address, e.value, e.sm).bus
  }

  function Physicals(es: seq<VirtualStore>): (ops: seq<StoreOp>)
    requires forall e <- es :: e.ToRam()
    ensures |ops| == |es| && forall op <- ops :: ValidStore(op, RAM_SIZE)
  {
    if es == [] then [] else Physicals(es[..|es| - 1]) + [es[|es| - 1].Physical()]
  }

  lemma StoresPhysically(bus: BusState, e: VirtualStore)
    requires bus.Valid() && e.ToRam()
    ensures |bus.mem| == RAM_SIZE
    ensures e.u.Store(bus, e.width, e.address, e.value, e.sm) == Value(0, bus.(mem := Put(bus.mem, e.Physical())))
  {
    MappedAligned(e.u.tlb, e.u.enabled, e.address, e.width, e.sm, true);
    hide Translate, Put8, Put16, Put32;
  }

  /** Any run of stores, of any widths through any mappings, is that run of physical stores. */
  lemma {:induction false} StoresArePhysical(bus: BusState, es: seq<VirtualStore>)
    requires bus.Valid() && forall e <- es :: e.ToRam()
    ensures |bus.mem| == RAM_SIZE
    ensures StoreAll(bus, es) == bus.(mem := PutAll(bus.mem, Physicals(es)))
  {
    if es != [] {
      var front, e := es[..|es| - 1], es[|es| - 1];
      StoresArePhysical(bus, front);
      StoresPhysically(StoreAll(bus, front), e);
      assert Physicals(es)[..|es| - 1] == Physicals(front);
      hide Put;
    }
  }

  /** The big-endian value of the latest bytes at a physical address. */
  function LatestValue(mem: seq<uint8>, ops: seq<StoreOp>, width: nat, phy: nat): uint32
    requires width in {1, 2, 4} && phy + width <= |mem| && forall op <- ops :: ValidStore(op, |mem|)
  {
    if width == 1 then LatestByte(mem, ops, phy)
    else if width == 2 then Half(LatestByte(mem, ops, phy), LatestByte(mem, ops, phy + 1))
    else Word(LatestByte(mem, ops, phy), LatestByte(mem, ops, phy + 1),
              LatestByte(mem, ops, phy + 2), LatestByte(mem, ops, phy + 3))
  }

  /** A load of any width through any mapping, its page cache used or not, reads at its physical
      address the bytes of the latest stores, whatever addresses they were made through. */
  lemma LoadReadsLatest(
    bus: BusState, es: seq<VirtualStore>, u: MmuState, sm: bool, width: nat, a: uint32, phy: uint32)
    requires bus.Valid() && forall e <- es :: e.ToRam()
    requires u.Valid() && u.kind == DataMmu && CacheSound(u, sm) && width in {1, 2, 4} && a % width == 0
    requires u.Map(a, sm, false) == Mapped(phy) && phy < RAM_SIZE
    ensures |bus.mem| == RAM_SIZE && phy + width <= RAM_SIZE
    ensures var after := StoreAll(bus, es);
            u.Load(after, width, a, sm) == Value(LatestValue(bus.mem, Physicals(es), width, phy), after)
  {
    var after := StoreAll(bus, es);
    StoresArePhysical(bus, es);
    MappedAligned(u.tlb, u.enabled, a, width, sm, false);
    AlignedEnd(phy, width);
    forall p | phy <= p < phy + width
      ensures after.mem[p] == LatestByte(bus.mem, Physicals(es), p)
    {
      LatestByteWins(bus.mem, Physicals(es), p);
    }
    ReadableLoad(after, u, sm, width, a, phy);
    ValueOf(after.mem, bus.mem, Physicals(es), width, phy);
  }

  /** A readable page answers as the uncached access does. */
  lemma ReadableLoad(bus: BusState, u: MmuState, sm: bool, width: nat, a: uint32, phy: uint32)
    requires bus.Valid() && u.Valid() && u.kind == DataMmu && CacheSound(u, sm) && width in {1, 2, 4} && a % width == 0
    requires u.Map(a, sm, false) == Mapped(phy) && phy < RAM_SIZE && phy % width == 0 && phy + width <= RAM_SIZE
    ensures |bus.mem| == RAM_SIZE && u.Load(bus, width, a, sm).Value?
    ensures u.Load(bus, width, a, sm)
            == Value(if width == 1 then Get8(bus.mem, phy) else if width == 2 then Get16(bus.mem, phy)
                     else Get32(bus.mem, phy), bus)
  {
    CachedLoadExact(u, bus, width, a, sm);
    HitEnabled(u, a, sm);
    hide MmuState.Load, CacheSound, Tlb.Matches, Tlb.Entry, Permits, PageCache.Hits, Get8, Get16, Get32, PageOf;
  }

  lemma HitEnabled(u: MmuState, a: uint32, sm: bool)
    requires u.Valid() && CacheSound(u, sm)
    ensures u.cache.Hits(a) ==> u.enabled
  {
  }

  lemma ValueOf(after: seq<uint8>, mem: seq<uint8>, ops: seq<StoreOp>, width: nat, phy: nat)
    requires width in {1, 2, 4} && phy + width <= |mem| == |after| && forall op <- ops :: ValidStore(op, |mem|)
    requires forall p :: phy <= p < phy + width ==> after[p] == LatestByte(mem, ops, p)
    ensures LatestValue(mem, ops, width, phy)
            == if width == 1 then Get8(after, phy) else if width == 2 then Get16(after, phy) else Get32(after, phy)
  {
    hide LatestByte;
  }
}
