/** Address translation and the page cache of simctty/mmu.cc, as functions on state values. */
module Translation {
  import opened Words
  import opened Exceptions
  import opened Memory
  import opened Bus

  const PAGE_SIZE := 0x2000
  const SETS := 128       // registers of each kind
  const USED_SETS := 64   // sets that translation looks at
  const MATCH_OFFSET := 512
  const TRANSLATE_OFFSET := 640

  function PageOf(address: uint32): uint32 { address - address % PAGE_SIZE }

  lemma PageBase(address: uint32)
    ensures PageOf(address) % PAGE_SIZE == 0 && PageOf(address) <= address
  {
  }

  function SetOf(address: uint32): nat { address / PAGE_SIZE % USED_SETS }

  datatype Option<T> = None | Some(value: T)

  /** The indices of MMU registers; the source ends the process on any other. */
  predicate KnownIndex(index: nat) {
    index == 0 || MATCH_OFFSET <= index < MATCH_OFFSET + SETS || TRANSLATE_OFFSET <= index < TRANSLATE_OFFSET + SETS
  }

  /** The software-visible registers of one MMU. */
  datatype Tlb = Tlb(control: uint32, matches: seq<uint32>, translates: seq<uint32>) {
    predicate Valid() { |matches| == |translates| == SETS }

    /** The register at an index; None where the source ends the process. */
    function Read(index: nat): Option<uint32>
      requires Valid()
    {
      if index == 0 then Some(control)
      else if MATCH_OFFSET <= index < MATCH_OFFSET + SETS then Some(matches[index - MATCH_OFFSET])
      else if TRANSLATE_OFFSET <= index < TRANSLATE_OFFSET + SETS then Some(translates[index - TRANSLATE_OFFSET])
      else None
    }

    function Write(index: nat, v: uint32): (r: Option<Tlb>)
      requires Valid()
      ensures r.Some? ==> r.value.Valid()
    {
      if index == 0 then Some(this.(control := v))
      else if MATCH_OFFSET <= index < MATCH_OFFSET + SETS then
        Some(this.(matches := matches[index - MATCH_OFFSET := v]))
      else if TRANSLATE_OFFSET <= index < TRANSLATE_OFFSET + SETS then
        Some(this.(translates := translates[index - TRANSLATE_OFFSET := v]))
      else None
    }

    /** Whether the entry for the address's set is valid and has its page number. */
    predicate Matches(address: uint32)
      requires Valid()
    {
      var mr := matches[SetOf(address)];
      Bit(mr, 1) && mr / PAGE_SIZE == address / PAGE_SIZE
    }

    function Entry(address: uint32): uint32
      requires Valid()
    {
      translates[SetOf(address)]
    }
  }

  datatype Kind = DataMmu | InstructionMmu

  /** Whether a translate register permits an access of the given mode and direction. */
  predicate Permits(kind: Kind, tr: uint32, sm: bool, write: bool) {
    match kind
    case InstructionMmu => Bit(tr, 0x40) || Bit(tr, 0x80)
    case DataMmu =>
      if sm then (if write then Bit(tr, 0x200) || Bit(tr, 0x80) else Bit(tr, 0x100) || Bit(tr, 0x40))
      else (if write then Bit(tr, 0x80) else Bit(tr, 0x40))
  }

  datatype Translated = Mapped(phy: uint32) | Missed(exception: Exception)

  /** Translation of one access, from the registers alone. */
  function Translate(tlb: Tlb, enabled: bool, kind: Kind, address: uint32, sm: bool, write: bool): Translated
    requires tlb.Valid()
  {
    if !enabled then Mapped(address)
    else if !tlb.Matches(address) then Missed(if kind == DataMmu then DtlbMiss else ItlbMiss)
    else if !Permits(kind, tlb.Entry(address), sm, write) then
      Missed(if kind == DataMmu then DataPageFault else InstructionPageFault)
    else Mapped(PageOf(tlb.Entry(address)) + address % PAGE_SIZE)
  }

  /** A remembered page and the RAM frame it maps to. */
  datatype PageCache = NoPage | Page(page: uint32, frame: uint32) {
    predicate Valid() {
      Page? ==> page % PAGE_SIZE == 0 && frame % PAGE_SIZE == 0 && frame < RAM_SIZE
    }

    predicate Hits(address: uint32) { Page? && page == PageOf(address) }
  }

  /** The two registers that hold a page cache; page 1 stands for none. */
  predicate CacheRegisters(page: uint32, frame: uint32) {
    page != 1 ==> page % PAGE_SIZE == 0 && frame % PAGE_SIZE == 0 && frame < RAM_SIZE
  }

  function CacheOf(page: uint32, frame: uint32): PageCache {
    if page == 1 then NoPage else Page(page, frame)
  }

  lemma NotOne(page: uint32)
    requires page % PAGE_SIZE == 0
    ensures page != 1
  {
  }

  /** Comparing a page with the register is asking whether the cache hits. */
  lemma CacheHit(page: uint32, frame: uint32, address: uint32)
    ensures CacheOf(page, frame).Hits(address) <==> PageOf(address) == page
    ensures PageOf(address) == page ==> CacheOf(page, frame) == Page(page, frame)
  {
    QuotientUnique(PageOf(address), PAGE_SIZE, address / PAGE_SIZE, 0);
    NotOne(PageOf(address));
  }

  lemma NoCache(frame: uint32)
    ensures CacheRegisters(1, frame) && CacheOf(1, frame) == NoPage
  {
  }

  datatype MmuState = MmuState(kind: Kind, enabled: bool, tlb: Tlb, cache: PageCache) {
    predicate Valid() { tlb.Valid() && cache.Valid() }

    function Map(address: uint32, sm: bool, write: bool): Translated
      requires tlb.Valid()
    {
      Translate(tlb, enabled, kind, address, sm, write)
    }

    /** The state after MapAddress: every successful translation refills the cache. */
    function AfterMap(address: uint32, sm: bool, write: bool): (u: MmuState)
      requires Valid()
      ensures u.Valid()
    {
      var t := Map(address, sm, write);
      if !enabled || t.Missed? then this
      else
        PageBase(address);
        PageBase(t.phy);
        this.(cache := if t.phy < RAM_SIZE then Page(PageOf(address), PageOf(t.phy)) else NoPage)
    }

    /** Load8, Load16 and Load32, by width. Only words take the cached path. */
    function Load(bus: BusState, width: nat, address: uint32, sm: bool): Reply
      requires Valid() && bus.Valid() && width in {1, 2, 4}
    {
      if width == 2 && address % 2 != 0 then Fault(Alignment)
      else if width == 4 && cache.Hits(address) then
        BusLoad(bus, 4, cache.frame + address % PAGE_SIZE)
      else match Map(address, sm, false)
        case Missed(e) => Fault(e)
        case Mapped(phy) => BusLoad(bus, width, phy)
    }

    function AfterLoad(width: nat, address: uint32, sm: bool): (u: MmuState)
      requires Valid()
      ensures u.Valid()
    {
      if (width == 2 && address % 2 != 0) || (width == 4 && cache.Hits(address)) then this
      else AfterMap(address, sm, false)
    }

    /** Store8, Store16 and Store32, by width. A halfword chooses RAM by its virtual address,
        which leaves the array when that page maps to a device. */
    function Store(bus: BusState, width: nat, address: uint32, v: uint32, sm: bool): Reply
      requires Valid() && bus.Valid() && width in {1, 2, 4}
    {
      if address % width != 0 then Fault(Alignment)
      else match Map(address, sm, true)
        case Missed(e) => Fault(e)
        case Mapped(phy) =>
          if width == 2 && address < RAM_SIZE <= phy then Undefined else BusStore(bus, width, phy, v)
    }

    function AfterStore(width: nat, address: uint32, sm: bool): (u: MmuState)
      requires Valid() && width in {1, 2, 4}
      ensures u.Valid()
    {
      if address % width != 0 then this else AfterMap(address, sm, true)
    }
  }

  // ---------------------------------------------------------------- the uncached accesses

  /** What the reference machine makes of a load: check alignment of halfwords, translate, access. */
  function PlainLoad(tlb: Tlb, enabled: bool, bus: BusState, width: nat, address: uint32, sm: bool): Reply
    requires tlb.Valid() && bus.Valid() && width in {1, 2, 4}
  {
    if width == 2 && address % 2 != 0 then Fault(Alignment)
    else match Translate(tlb, enabled, DataMmu, address, sm, false)
      case Missed(e) => Fault(e)
      case Mapped(phy) => BusLoad(bus, width, phy)
  }

  function PlainStore(tlb: Tlb, enabled: bool, bus: BusState, width: nat, address: uint32, v: uint32, sm: bool): Reply
    requires tlb.Valid() && bus.Valid() && width in {1, 2, 4}
  {
    if address % width != 0 then Fault(Alignment)
    else match Translate(tlb, enabled, DataMmu, address, sm, true)
      case Missed(e) => Fault(e)
      case Mapped(phy) => BusStore(bus, width, phy, v)
  }

  // ---------------------------------------------------------------- soundness of the page cache

  /** The remembered page is enabled, has its tag in the TLB, maps to the remembered RAM frame,
      and some access to it is permitted in the current mode. */
  predicate CacheSound(u: MmuState, sm: bool)
    requires u.Valid()
  {
    u.cache.Page? ==>
      && u.enabled
      && u.tlb.Matches(u.cache.page)
      && u.cache.frame == PageOf(u.tlb.Entry(u.cache.page))
      && (Permits(u.kind, u.tlb.Entry(u.cache.page), sm, false) || Permits(u.kind, u.tlb.Entry(u.cache.page), sm, true))
  }

  lemma SamePage(a: uint32, b: uint32)
    requires PageOf(a) == PageOf(b)
    ensures a / PAGE_SIZE == b / PAGE_SIZE && SetOf(a) == SetOf(b)
  {
    assert a == PAGE_SIZE * (a / PAGE_SIZE) + a % PAGE_SIZE && b == PAGE_SIZE * (b / PAGE_SIZE) + b % PAGE_SIZE;
  }

  lemma PageOfPage(a: uint32)
    ensures PageOf(PageOf(a)) == PageOf(a) && PageOf(a) % PAGE_SIZE == 0
  {
    QuotientUnique(PageOf(a), PAGE_SIZE, a / PAGE_SIZE, 0);
  }

  lemma LowBitsOfOffset(q: nat, r: nat)
    requires r < PAGE_SIZE
    ensures (PAGE_SIZE * q + r) % 4 == r % 4 && (PAGE_SIZE * q + r) % 2 == r % 2
  {
    QuotientUnique(PAGE_SIZE * q + r, 4, 2048 * q + r / 4, r % 4);
    QuotientUnique(PAGE_SIZE * q + r, 2, 4096 * q + r / 2, r % 2);
  }

  /** A frame joined with an offset: a word of that frame at that offset. */
  lemma FrameJoin(tr: uint32, a: uint32)
    ensures var phy := PageOf(tr) + a % PAGE_SIZE;
            && phy < 0x1_0000_0000 && PageOf(phy) == PageOf(tr) && phy % 4 == a % 4 && phy % 2 == a % 2
            && (phy < RAM_SIZE <==> PageOf(tr) < RAM_SIZE)
  {
    var q, p, r := tr / PAGE_SIZE, a / PAGE_SIZE, a % PAGE_SIZE;
    var phy := PageOf(tr) + r;
    assert PageOf(tr) == PAGE_SIZE * q;
    QuotientUnique(phy, PAGE_SIZE, q, r);
    LowBitsOfOffset(q, r);
    LowBitsOfOffset(p, r);
  }

  lemma FramePage(phy: uint32, address: uint32)
    requires phy < RAM_SIZE
    ensures PageOf(phy) % PAGE_SIZE == 0 && PageOf(phy) + address % PAGE_SIZE < RAM_SIZE
    ensures phy % PAGE_SIZE == 0 ==> PageOf(phy) == phy
    ensures address % 4 == 0 ==> PageOf(phy) + address % PAGE_SIZE + 3 < RAM_SIZE
  {
  }

  lemma MapKeepsSound(u: MmuState, address: uint32, sm: bool, write: bool)
    requires u.Valid() && CacheSound(u, sm)
    ensures CacheSound(u.AfterMap(address, sm, write), sm)
  {
    PageOfPage(address);
    SamePage(address, PageOf(address));
    if u.enabled && u.tlb.Matches(address) { FrameJoin(u.tlb.Entry(address), address); }
  }

  /** For every load: the cached answer is the reference machine's unless it is a word on the
      remembered page and that page may only be written. */
  lemma CachedLoadExact(u: MmuState, bus: BusState, width: nat, address: uint32, sm: bool)
    requires u.Valid() && bus.Valid() && width in {1, 2, 4} && u.kind == DataMmu && CacheSound(u, sm)
    ensures u.Load(bus, width, address, sm) == PlainLoad(u.tlb, u.enabled, bus, width, address, sm)
            <==> !(width == 4 && u.cache.Hits(address) && !Permits(DataMmu, u.tlb.Entry(address), sm, false))
  {
    if width == 4 && u.cache.Hits(address) {
      PageOfPage(address);
      SamePage(address, u.cache.page);
      FrameJoin(u.tlb.Entry(address), address);
    }
  }

  /** For every store: the answer is the reference machine's unless it is a halfword whose virtual
      address looks like RAM and whose page maps outside RAM. */
  lemma StoreExact(u: MmuState, bus: BusState, width: nat, address: uint32, v: uint32, sm: bool)
    requires u.Valid() && bus.Valid() && width in {1, 2, 4} && u.kind == DataMmu
    ensures u.Store(bus, width, address, v, sm) == PlainStore(u.tlb, u.enabled, bus, width, address, v, sm)
            <==> !(width == 2 && address % 2 == 0 && address < RAM_SIZE
                   && u.Map(address, sm, true).Mapped? && u.Map(address, sm, true).phy >= RAM_SIZE)
  {
    if u.enabled && u.tlb.Matches(address) { FrameJoin(u.tlb.Entry(address), address); }
  }

  /** The low bytes of a value that an access of some width keeps. */
  function Truncate(width: nat, v: uint32): uint32 {
    if width == 1 then v % 0x100 else if width == 2 then v % 0x1_0000 else v
  }

  lemma BusReadBack(bus: BusState, width: nat, phy: uint32, v: uint32)
    requires bus.Valid() && width in {1, 2, 4} && phy < RAM_SIZE && phy % width == 0
    ensures var s := BusStore(bus, width, phy, v);
            && s.Value? && s.bus.Valid()
            && BusLoad(s.bus, width, phy) == Value(Truncate(width, v), s.bus)
  {
    AlignedEnd(phy, width);
    GetPut(bus.mem, phy, width, v);
  }

  lemma AlignedEnd(phy: nat, width: nat)
    requires width in {1, 2, 4} && phy % width == 0 && phy < RAM_SIZE
    ensures phy + width <= RAM_SIZE
  {
  }

  /** Only the low bytes of a stored value matter. */
  lemma StoreTruncates(u: MmuState, bus: BusState, width: nat, address: uint32, v: uint32, sm: bool)
    requires u.Valid() && bus.Valid() && width in {1, 2, 4}
    ensures u.Store(bus, width, address, Truncate(width, v), sm) == u.Store(bus, width, address, v, sm)
  {
    LowBytes(v);
    hide Translate, Byte0, Byte1;
  }

  lemma LowBytes(v: uint32)
    ensures v % 0x100 % 0x100 == v % 0x100 && Byte0(v % 0x100) == Byte0(v)
    ensures Byte0(v % 0x1_0000) == Byte0(v) && Byte1(v % 0x1_0000) == Byte1(v)
  {
    var q, r := v / 0x1_0000, v % 0x1_0000;
    QuotientUnique(v, 0x100, 0x100 * q + r / 0x100, r % 0x100);
  }

  /** A translation keeps the alignment of an address. */
  lemma MappedAligned(tlb: Tlb, enabled: bool, a: uint32, width: nat, sm: bool, write: bool)
    requires tlb.Valid() && width in {1, 2, 4} && a % width == 0
    ensures var t := Translate(tlb, enabled, DataMmu, a, sm, write);
            t.Mapped? ==> t.phy % width == 0
  {
    FrameJoin(tlb.Entry(a), a);
  }

  /** A value stored through one virtual address is what a load through any other address of
      the same RAM reads. */
  lemma AliasesAgree(tlb: Tlb, enabled: bool, bus: BusState, width: nat, a: uint32, b: uint32, v: uint32, sm: bool)
    requires tlb.Valid() && bus.Valid() && width in {1, 2, 4} && a % width == 0 && b % width == 0
    requires Translate(tlb, enabled, DataMmu, a, sm, true).Mapped?
    requires Translate(tlb, enabled, DataMmu, b, sm, false) == Translate(tlb, enabled, DataMmu, a, sm, true)
    requires Translate(tlb, enabled, DataMmu, b, sm, false).phy < RAM_SIZE
    ensures var s := PlainStore(tlb, enabled, bus, width, a, v, sm);
            && s.Value? && s.bus.Valid()
            && PlainLoad(tlb, enabled, s.bus, width, b, sm) == Value(Truncate(width, v), s.bus)
  {
    MappedAligned(tlb, enabled, a, width, sm, true);
    BusReadBack(bus, width, Translate(tlb, enabled, DataMmu, a, sm, true).phy, v);
  }

  // ---------------------------------------------------------------- every interleaving

  /** One use of a data MMU between two mode changes. */
  datatype MmuUse =
    | WriteRegister(index: nat, v: uint32)
    | Enable(on: bool)
    | LoadUse(width: nat, address: uint32)
    | StoreUse(width: nat, address: uint32)

  predicate ValidUse(e: MmuUse) {
    match e
    case WriteRegister(index, _) => KnownIndex(index)
    case Enable(_) => true
    case LoadUse(width, _) => width in {1, 2, 4}
    case StoreUse(width, _) => width in {1, 2, 4}
  }

  function Use(u: MmuState, e: MmuUse, sm: bool): (r: MmuState)
    requires u.Valid() && ValidUse(e)
    ensures r.Valid() && r.kind == u.kind
  {
    match e
    case WriteRegister(index, v) => u.(tlb := u.tlb.Write(index, v).value, cache := NoPage)
    case Enable(on) => u.(enabled := on, cache := NoPage)
    case LoadUse(width, address) => u.AfterLoad(width, address, sm)
    case StoreUse(width, address) => u.AfterStore(width, address, sm)
  }

  function Uses(u: MmuState, es: seq<MmuUse>, sm: bool): (r: MmuState)
    requires u.Valid() && forall e <- es :: ValidUse(e)
    ensures r.Valid() && r.kind == u.kind
  {
    if es == [] then u else Use(Uses(u, es[..|es| - 1], sm), es[|es| - 1], sm)
  }

  lemma {:induction false} UsesKeepSound(u: MmuState, es: seq<MmuUse>, sm: bool)
    requires u.Valid() && CacheSound(u, sm) && forall e <- es :: ValidUse(e)
    ensures CacheSound(Uses(u, es, sm), sm)
  {
    if es != [] {
      var e := es[|es| - 1];
      var v := Uses(u, es[..|es| - 1], sm);
      UsesKeepSound(u, es[..|es| - 1], sm);
      match e
      case WriteRegister(_, _) =>
      case Enable(_) =>
      case LoadUse(_, address) => MapKeepsSound(v, address, sm, false);
      case StoreUse(_, address) => MapKeepsSound(v, address, sm, true);
    }
  }

  /** After every interleaving of register writes, enable changes and accesses in one mode, a
      word load answers as a fresh translation and physical read do, exactly if it does not
      fall on a remembered page that the TLB lets this mode write but not read. */
  lemma LoadAfterUsesExact(u: MmuState, es: seq<MmuUse>, bus: BusState, address: uint32, sm: bool)
    requires u.Valid() && u.kind == DataMmu && u.cache == NoPage && bus.Valid() && forall e <- es :: ValidUse(e)
    ensures var v := Uses(u, es, sm);
            v.Load(bus, 4, address, sm) == PlainLoad(v.tlb, v.enabled, bus, 4, address, sm)
            <==> !(v.cache.Hits(address) && !Permits(DataMmu, v.tlb.Entry(address), sm, false))
  {
    UsesKeepSound(u, es, sm);
    CachedLoadExact(Uses(u, es, sm), bus, 4, address, sm);
  }

  /** With entries that never grant writing without reading, the cache is invisible. */
  lemma LoadAfterUses(u: MmuState, es: seq<MmuUse>, bus: BusState, address: uint32, sm: bool)
    requires u.Valid() && u.kind == DataMmu && u.cache == NoPage && bus.Valid() && forall e <- es :: ValidUse(e)
    requires var v := Uses(u, es, sm);
             forall tr <- v.tlb.translates :: Permits(DataMmu, tr, sm, true) ==> Permits(DataMmu, tr, sm, false)
    ensures var v := Uses(u, es, sm);
            v.Load(bus, 4, address, sm) == PlainLoad(v.tlb, v.enabled, bus, 4, address, sm)
  {
    var v := Uses(u, es, sm);
    UsesKeepSound(u, es, sm);
    LoadAfterUsesExact(u, es, bus, address, sm);
    if v.cache.Hits(address) {
      PageOfPage(address);
      SamePage(address, v.cache.page);
      assert v.tlb.Entry(address) in v.tlb.translates;
    }
  }

  /** A store to a write-only page, then a load from it: the load succeeds where a fresh
      translation faults. */
  lemma WriteOnlyPageAnswers(bus: BusState)
    requires bus.Valid()
    ensures var u := MmuState(DataMmu, true, Tlb(0, seq(SETS, i => 1), seq(SETS, i => 0x200)), NoPage);
            var v := u.AfterStore(4, 0, true);
            && v.Load(bus, 4, 0, true).Value?
            && PlainLoad(v.tlb, v.enabled, bus, 4, 0, true) == Fault(DataPageFault)
  {
    var u := MmuState(DataMmu, true, Tlb(0, seq(SETS, i => 1), seq(SETS, i => 0x200)), NoPage);
    assert u.tlb.Matches(0) && u.tlb.Entry(0) == 0x200;
  }
}
