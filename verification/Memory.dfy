/** The reference memory: flat big-endian bytes, and the host layout that represents it. */
module Memory {
  import opened Words

  /** The RAM size: kMaxRamAddress + 1, a whole number of 8 KiB pages. */
  const RAM_SIZE := 0x200_0000

  // ---------------------------------------------------------------- big-endian accesses

  function Get8(mem: seq<uint8>, a: nat): uint32
    requires a < |mem|
  {
    mem[a]
  }

  function Get16(mem: seq<uint8>, a: nat): uint32
    requires a + 1 < |mem|
  {
    Half(mem[a], mem[a + 1])
  }

  function Get32(mem: seq<uint8>, a: nat): uint32
    requires a + 3 < |mem|
  {
    Word(mem[a], mem[a + 1], mem[a + 2], mem[a + 3])
  }

  function Put8(mem: seq<uint8>, a: nat, v: uint32): (r: seq<uint8>)
    requires a < |mem|
    ensures |r| == |mem|
  {
    mem[a := Byte0(v)]
  }

  function Put16(mem: seq<uint8>, a: nat, v: uint32): (r: seq<uint8>)
    requires a + 1 < |mem|
    ensures |r| == |mem|
  {
    mem[a := Byte1(v)][a + 1 := Byte0(v)]
  }

  function Put32(mem: seq<uint8>, a: nat, v: uint32): (r: seq<uint8>)
    requires a + 3 < |mem|
    ensures |r| == |mem|
  {
    mem[a := Byte3(v)][a + 1 := Byte2(v)][a + 2 := Byte1(v)][a + 3 := Byte0(v)]
  }

  /** The bytes of data written over mem from offset on. */
  function Overlay(mem: seq<uint8>, offset: nat, data: seq<uint8>): (r: seq<uint8>)
    requires offset + |data| <= |mem|
    ensures |r| == |mem|
  {
    mem[..offset] + data + mem[offset + |data|..]
  }

  /** A value read back at the width it was stored is its low bytes. */
  lemma GetPut(mem: seq<uint8>, a: nat, width: nat, v: uint32)
    requires width in {1, 2, 4} && a + width <= |mem|
    ensures width == 1 ==> Get8(Put8(mem, a, v), a) == v % 0x100
    ensures width == 2 ==> Get16(Put16(mem, a, v), a) == v % 0x1_0000
    ensures width == 4 ==> Get32(Put32(mem, a, v), a) == v
  {
    WordBytes(v);
  }

  // ---------------------------------------------------------------- the host layout

  /** Where the host keeps the byte of address a: words are stored in (little-endian)
      host order, so each byte sits at a ^ 3. */
  function HostIndex(a: nat): nat {
    a / 4 * 4 + 3 - a % 4
  }

  /** The lane swap is its own inverse, and acts within each word. */
  lemma HostIndexInvolution(a: nat)
    ensures HostIndex(HostIndex(a)) == a && HostIndex(a) / 4 == a / 4
  {
  }

  lemma HostIndexBound(a: nat, n: nat)
    requires n % 4 == 0 && a < n
    ensures HostIndex(a) < n
  {
  }

  lemma WordIndices(a: nat)
    requires a % 4 == 0
    ensures HostIndex(a) == a + 3 && HostIndex(a + 1) == a + 2 && HostIndex(a + 2) == a + 1 && HostIndex(a + 3) == a
  {
  }

  /** The big-endian memory that the host bytes represent. */
  function BigEndian(host: seq<uint8>): (mem: seq<uint8>)
    requires |host| % 4 == 0
    ensures |mem| == |host|
    ensures forall a :: 0 <= a < |mem| ==> mem[a] == host[HostIndex(a)]
  {
    seq(|host|, a requires 0 <= a < |host| => host[HostIndex(a)])
  }

  /** The host word at index h: four bytes in little-endian order. */
  function HostWord(host: seq<uint8>, h: nat): uint32
    requires h + 3 < |host|
  {
    Word(host[h + 3], host[h + 2], host[h + 1], host[h])
  }

  function HostHalf(host: seq<uint8>, h: nat): uint32
    requires h + 1 < |host|
  {
    Half(host[h + 1], host[h])
  }

  /** One host byte stored changes exactly one big-endian byte. */
  lemma StoreByte(host: seq<uint8>, h: nat, v: uint8)
    requires |host| % 4 == 0 && h < |host|
    ensures HostIndex(h) < |host|
    ensures BigEndian(host[h := v]) == BigEndian(host)[HostIndex(h) := v]
  {
    HostIndexBound(h, |host|);
    hide HostIndex;
    var mem := BigEndian(host)[HostIndex(h) := v];
    forall a | 0 <= a < |host|
      ensures BigEndian(host[h := v])[a] == mem[a]
    {
      HostIndexBound(a, |host|);
      HostIndexInvolution(a);
      HostIndexInvolution(h);
    }
  }

  /** A byte at address ^ 3 is the big-endian byte at the address. */
  lemma ByteLane(host: seq<uint8>, a: uint32, v: uint8)
    requires |host| % 4 == 0 && a < |host|
    ensures Bitwise32(XorBits, a, 3) < |host|
    ensures host[Bitwise32(XorBits, a, 3)] == Get8(BigEndian(host), a)
    ensures BigEndian(host[Bitwise32(XorBits, a, 3) := v]) == Put8(BigEndian(host), a, v)
  {
    XorThree(a);
    hide Bitwise32, BigEndian;
    StoreByteLane(host, a, Bitwise32(XorBits, a, 3), v);
  }

  lemma StoreByteLane(host: seq<uint8>, a: nat, h: nat, v: uint8)
    requires |host| % 4 == 0 && a < |host| && h == HostIndex(a)
    ensures h < |host|
    ensures host[h] == Get8(BigEndian(host), a)
    ensures BigEndian(host[h := v]) == Put8(BigEndian(host), a, v)
  {
    HostIndexInvolution(a);
    StoreByte(host, h, v);
  }

  /** A host halfword at address ^ 2 is the big-endian halfword at an even address. */
  lemma HalfLane(host: seq<uint8>, a: uint32, v: uint16)
    requires |host| % 4 == 0 && a + 1 < |host| && a % 2 == 0
    ensures Bitwise32(XorBits, a, 2) + 1 < |host|
    ensures var h := Bitwise32(XorBits, a, 2);
            && HostHalf(host, h) == Get16(BigEndian(host), a)
            && BigEndian(host[h := Byte0(v)][h + 1 := Byte1(v)]) == Put16(BigEndian(host), a, v)
  {
    hide *;
    XorTwo(a);
    StoreHalfLane(host, a, Bitwise32(XorBits, a, 2), v);
  }

  lemma StoreHalfLane(host: seq<uint8>, a: nat, h: nat, v: uint16)
    requires |host| % 4 == 0 && a + 1 < |host| && a % 2 == 0 && h == SwapHalves(a)
    ensures h + 1 < |host|
    ensures HostHalf(host, h) == Get16(BigEndian(host), a)
    ensures BigEndian(host[h := Byte0(v)][h + 1 := Byte1(v)]) == Put16(BigEndian(host), a, v)
  {
    HalfIndices(a, h);
    HostIndexBound(a, |host|);
    HostIndexBound(a + 1, |host|);
    hide HostIndex, SwapHalves;
    var h1 := host[h := Byte0(v)];
    StoreByte(host, h, Byte0(v));
    StoreByte(h1, h + 1, Byte1(v));
    SwapTwo(BigEndian(host), a, Byte1(v), Byte0(v));
  }

  lemma HalfIndices(a: nat, h: nat)
    requires a % 2 == 0 && h == SwapHalves(a)
    ensures HostIndex(a) == h + 1 && HostIndex(a + 1) == h && HostIndex(h) == a + 1 && HostIndex(h + 1) == a
    ensures h / 4 == a / 4
  {
    var q := EvenAddress(a);
    hide HostIndex, SwapHalves;
    WordIndices(4 * q);
    QuotientUnique(h, 4, q, h - 4 * q);
  }

  lemma EvenAddress(a: nat) returns (q: nat)
    requires a % 2 == 0
    ensures q == a / 4
    ensures (a == 4 * q && SwapHalves(a) == 4 * q + 2) || (a == 4 * q + 2 && SwapHalves(a) == 4 * q)
  {
    q := a / 4;
    if a % 4 == 1 { QuotientUnique(a, 2, 2 * q, 1); }
    if a % 4 == 3 { QuotientUnique(a, 2, 2 * q + 1, 1); }
  }

  lemma SwapTwo(mem: seq<uint8>, a: nat, hi: uint8, lo: uint8)
    requires a + 1 < |mem|
    ensures mem[a + 1 := lo][a := hi] == mem[a := hi][a + 1 := lo]
  {
  }

  /** A host word at a 4-aligned address is the big-endian word there. */
  lemma WordLane(host: seq<uint8>, a: nat)
    requires |host| % 4 == 0 && a + 3 < |host| && a % 4 == 0
    ensures HostWord(host, a) == Get32(BigEndian(host), a)
  {
    WordIndices(a);
    hide HostIndex;
  }

  lemma StoreWordLane(host: seq<uint8>, a: nat, v: uint32)
    requires |host| % 4 == 0 && a + 3 < |host| && a % 4 == 0
    ensures BigEndian(host[a := Byte0(v)][a + 1 := Byte1(v)][a + 2 := Byte2(v)][a + 3 := Byte3(v)])
            == Put32(BigEndian(host), a, v)
  {
    WordIndices(a);
    hide HostIndex;
    var h1 := host[a := Byte0(v)];
    var h2 := h1[a + 1 := Byte1(v)];
    var h3 := h2[a + 2 := Byte2(v)];
    StoreByte(host, a, Byte0(v));
    StoreByte(h1, a + 1, Byte1(v));
    StoreByte(h2, a + 2, Byte2(v));
    StoreByte(h3, a + 3, Byte3(v));
    ReverseFour(BigEndian(host), a, v);
  }

  lemma ReverseFour(mem: seq<uint8>, a: nat, v: uint32)
    requires a + 3 < |mem|
    ensures mem[a + 3 := Byte0(v)][a + 2 := Byte1(v)][a + 1 := Byte2(v)][a := Byte3(v)] == Put32(mem, a, v)
  {
  }

  /** The first n bytes of data, lanes reversed within each word of data, written over the host
      bytes from offset on. */
  predicate Filled(before: seq<uint8>, after: seq<uint8>, data: seq<uint8>, offset: nat, n: nat)
    requires n <= |data| && n % 4 == 0 && |data| % 4 == 0
  {
    && |after| == |before|
    && forall h :: 0 <= h < |after| ==>
         after[h] == if offset <= h < offset + n then Lane(data, h - offset) else before[h]
  }

  function Lane(data: seq<uint8>, i: nat): uint8
    requires i < |data| && |data| % 4 == 0
  {
    HostIndexBound(i, |data|);
    data[HostIndex(i)]
  }

  lemma FillWord(
    before: seq<uint8>, middle: seq<uint8>, after: seq<uint8>, data: seq<uint8>, offset: nat, i: nat)
    requires i % 4 == 0 && |data| % 4 == 0 && i + 4 <= |data| && offset + |data| <= |before|
    requires Filled(before, middle, data, offset, i)
    requires after == middle[offset + i := data[i + 3]][offset + i + 1 := data[i + 2]]
                      [offset + i + 2 := data[i + 1]][offset + i + 3 := data[i]]
    ensures Filled(before, after, data, offset, i + 4)
  {
    WordIndices(i);
    hide HostIndex;
  }

  /** A range of whole host words filled lane by lane with data is data in big-endian view. */
  lemma ImageLanes(before: seq<uint8>, after: seq<uint8>, data: seq<uint8>, offset: nat)
    requires |before| == |after| && |before| % 4 == 0 && offset % 4 == 0 && |data| % 4 == 0
    requires offset + |data| <= |before| && Filled(before, after, data, offset, |data|)
    ensures BigEndian(after) == Overlay(BigEndian(before), offset, data)
  {
    hide HostIndex;
    var expected := Overlay(BigEndian(before), offset, data);
    forall a | 0 <= a < |after|
      ensures BigEndian(after)[a] == expected[a]
    {
      ShiftedLane(a, offset, |data|);
      HostIndexBound(a, |after|);
      ImageByte(before, after, data, offset, a, HostIndex(a));
    }
  }

  lemma ImageByte(before: seq<uint8>, after: seq<uint8>, data: seq<uint8>, offset: nat, a: nat, h: nat)
    requires |before| == |after| && |before| % 4 == 0 && offset + |data| <= |before| && a < |before|
    requires h == HostIndex(a) && h < |before|
    requires offset <= a < offset + |data| <==> offset <= h < offset + |data|
    requires offset <= a ==> offset <= h && HostIndex(h - offset) == a - offset
    requires after[h] == if offset <= h < offset + |data| then data[HostIndex(h - offset)] else before[h]
    ensures BigEndian(after)[a] == Overlay(BigEndian(before), offset, data)[a]
  {
  }

  lemma ShiftedLane(a: nat, offset: nat, len: nat)
    requires offset % 4 == 0 && len % 4 == 0
    ensures offset <= a < offset + len <==> offset <= HostIndex(a) < offset + len
    ensures offset <= a ==> offset <= HostIndex(a) && HostIndex(HostIndex(a) - offset) == a - offset
  {
  }

  // ---------------------------------------------------------------- access sequences

  /** One aligned store, of 1, 2 or 4 bytes. */
  datatype StoreOp = StoreOp(width: nat, address: nat, value: uint32)

  predicate ValidStore(op: StoreOp, size: nat) {
    op.width in {1, 2, 4} && op.address % op.width == 0 && op.address + op.width <= size
  }

  function Put(mem: seq<uint8>, op: StoreOp): (r: seq<uint8>)
    requires ValidStore(op, |mem|)
    ensures |r| == |mem|
  {
    if op.width == 1 then Put8(mem, op.address, op.value)
    else if op.width == 2 then Put16(mem, op.address, op.value)
    else Put32(mem, op.address, op.value)
  }

  function PutAll(mem: seq<uint8>, ops: seq<StoreOp>): (r: seq<uint8>)
    requires forall op <- ops :: ValidStore(op, |mem|)
    ensures |r| == |mem|
  {
    if ops == [] then mem else Put(PutAll(mem, ops[..|ops| - 1]), ops[|ops| - 1])
  }

  /** The byte that a store leaves at address a, one byte of the value counted from its most
      significant end. */
  function ByteOf(op: StoreOp, a: nat): uint8
    requires op.width in {1, 2, 4} && op.address <= a < op.address + op.width
  {
    op.value / Pow2(8 * (op.address + op.width - 1 - a)) % 0x100
  }

  /** The byte a run of stores leaves at a: that of the latest store covering a, or the original. */
  function LatestByte(mem: seq<uint8>, ops: seq<StoreOp>, a: nat): uint8
    requires a < |mem| && forall op <- ops :: ValidStore(op, |mem|)
  {
    if ops == [] then mem[a]
    else
      var op := ops[|ops| - 1];
      assert op in ops && ValidStore(op, |mem|);
      if op.address <= a < op.address + op.width then ByteOf(op, a)
      else LatestByte(mem, ops[..|ops| - 1], a)
  }

  lemma PutByte(mem: seq<uint8>, op: StoreOp, a: nat)
    requires ValidStore(op, |mem|) && a < |mem|
    ensures op.address <= a < op.address + op.width ==> Put(mem, op)[a] == ByteOf(op, a)
    ensures !(op.address <= a < op.address + op.width) ==> Put(mem, op)[a] == mem[a]
  {
    assert Pow2(8) == 0x100;
    Pow2Add(8, 8);
    Pow2Add(8, 16);
    if op.address <= a < op.address + op.width {
      var k := op.address + op.width - 1 - a;
      assert k == 0 || k == 1 || k == 2 || k == 3;
      assert Pow2(0) == 1;
      assert ByteOf(op, a) == op.value / Pow2(8 * k) % 0x100;
    }
  }

  /** For every sequence of aligned stores of mixed widths, memory holds at each address the
      byte of the latest store that covers it. */
  lemma {:induction false} LatestByteWins(mem: seq<uint8>, ops: seq<StoreOp>, a: nat)
    requires a < |mem| && forall op <- ops :: ValidStore(op, |mem|)
    ensures PutAll(mem, ops)[a] == LatestByte(mem, ops, a)
  {
    if ops != [] {
      var front := ops[..|ops| - 1];
      LatestByteWins(mem, front, a);
      PutByte(PutAll(mem, front), ops[|ops| - 1], a);
    }
  }
}
