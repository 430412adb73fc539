/** The assembler object (simctty/assembler.cc) and what a loaded program decodes to. */
module Assembler {
  import opened Words
  import opened Memory
  import opened Isa

  /** The bytes of a word, most significant first. */
  function WordToBytes(w: uint32): (b: seq<uint8>)
    ensures |b| == 4
  {
    [Byte3(w), Byte2(w), Byte1(w), Byte0(w)]
  }

  /** B32ENDIANSWAP on a little-endian host. */
  function EndianSwap(w: uint32): uint32 {
    Word(Byte0(w), Byte1(w), Byte2(w), Byte3(w))
  }

  /** The i-th byte of a word in host (little-endian) order. */
  function HostByte(w: uint32, i: nat): uint8
    requires i < 4
  {
    if i == 0 then Byte0(w) else if i == 1 then Byte1(w) else if i == 2 then Byte2(w) else Byte3(w)
  }

  lemma SwappedBytes(w: uint32)
    ensures var s := EndianSwap(w);
            WordToBytes(w) == [HostByte(s, 0), HostByte(s, 1), HostByte(s, 2), HostByte(s, 3)]
  {
    var b0: int, b1: int, b2: int, b3: int := Byte0(w), Byte1(w), Byte2(w), Byte3(w);
    var s := EndianSwap(w);
    assert s == b0 * 0x100_0000 + b1 * 0x1_0000 + b2 * 0x100 + b3;
    assert 0 <= b3 < 0x100 && 0 <= b2 < 0x100 && 0 <= b1 < 0x100 && 0 <= b0 < 0x100;
    SwapDigits(s, b0, b1, b2, b3);
    hide EndianSwap;
  }

  lemma SwapDigits(s: uint32, b0: int, b1: int, b2: int, b3: int)
    requires 0 <= b0 < 0x100 && 0 <= b1 < 0x100 && 0 <= b2 < 0x100 && 0 <= b3 < 0x100
    requires s == b0 * 0x100_0000 + b1 * 0x1_0000 + b2 * 0x100 + b3
    ensures Byte0(s) == b3 && Byte1(s) == b2 && Byte2(s) == b1 && Byte3(s) == b0
  {
    QuotientUnique(s, 0x100, b0 * 0x1_0000 + b1 * 0x100 + b2, b3);
    QuotientUnique(s, 0x1_0000, b0 * 0x100 + b1, b2 * 0x100 + b3);
    QuotientUnique(s, 0x100_0000, b0, b1 * 0x1_0000 + b2 * 0x100 + b3);
    QuotientUnique(b0 * 0x1_0000 + b1 * 0x100 + b2, 0x100, b0 * 0x100 + b1, b2);
    QuotientUnique(b0 * 0x100 + b1, 0x100, b0, b1);
  }

  predicate Program(prog: seq<Instr>) { forall x <- prog :: Encodable(x) }

  /** The image of a program: its encodings in order, big-endian. */
  function Image(prog: seq<Instr>): (b: seq<uint8>)
    requires Program(prog)
    ensures |b| == 4 * |prog|
  {
    if prog == [] then []
    else
      MaskedSame(prog[|prog| - 1]);
      Image(prog[..|prog| - 1]) + WordToBytes(Encode(prog[|prog| - 1]))
  }

  function Nops(n: nat): (p: seq<Instr>)
    ensures |p| == n && Program(p)
  {
    seq(n, i => Nop(0))
  }

  class Assembler {
    var instructions: seq<uint8>

    constructor ()
      ensures instructions == []
    {
      instructions := [];
    }

    method Clear()
      modifies this
      ensures instructions == []
    {
      instructions := [];
    }

    function Size(): nat
      reads this
    {
      |instructions|
    }

    /** The mnemonics: encodes an instruction, its operands masked, and appends it. */
    method Emit(x: Instr)
      requires Assemblable(x)
      modifies this
      ensures instructions == old(instructions) + WordToBytes(Encode(x))
    {
      AppendInstruction(Encode(x));
    }

    method Data(data: uint32)
      modifies this
      ensures instructions == old(instructions) + WordToBytes(data)
    {
      AppendInstruction(data);
    }

    method AppendInstruction(w: uint32)
      modifies this
      ensures instructions == old(instructions) + WordToBytes(w)
    {
      var swapped := EndianSwap(w);
      ghost var bytes := [HostByte(swapped, 0), HostByte(swapped, 1), HostByte(swapped, 2), HostByte(swapped, 3)];
      SwappedBytes(w);
      hide EndianSwap, HostByte, WordToBytes;
      var i := 0;
      while i < 4
        invariant 0 <= i <= 4 && instructions == old(instructions) + bytes[..i]
      {
        instructions := instructions + [HostByte(swapped, i)];
        assert bytes[..i + 1] == bytes[..i] + [HostByte(swapped, i)];
        i := i + 1;
      }
      assert bytes[..4] == bytes;
    }

    /** Pads with l.nop up to an address. */
    method SetAddress(address: uint32)
      modifies this
      ensures exists n: nat ::
                && instructions == old(instructions) + Image(Nops(n))
                && (n == 0 || old(Size()) + 4 * (n - 1) < address) && address <= old(Size()) + 4 * n
    {
      ghost var n: nat := 0;
      while Size() < address
        invariant instructions == old(instructions) + Image(Nops(n))
        invariant n == 0 || old(Size()) + 4 * (n - 1) < address
        decreases address - Size()
      {
        Emit(Nop(0));
        assert Nops(n + 1)[..n] == Nops(n);
        n := n + 1;
      }
    }
  }

  // ---------------------------------------------------------------- loaded programs

  lemma {:induction false} ImageWord(prog: seq<Instr>, k: nat)
    requires Program(prog) && k < |prog|
    ensures Assemblable(prog[k]) && Get32(Image(prog), 4 * k) == Encode(prog[k])
  {
    var front, x := prog[..|prog| - 1], prog[|prog| - 1];
    MaskedSame(x);
    if k < |prog| - 1 {
      ImageWord(front, k);
    } else {
      WordBytes(Encode(x));
      hide Byte0, Byte1, Byte2, Byte3, Word;
    }
  }

  lemma OverlayWord(mem: seq<uint8>, image: seq<uint8>, a: nat)
    requires |image| <= |mem| && a + 3 < |image|
    ensures Get32(Overlay(mem, 0, image), a) == Get32(image, a)
  {
  }

  /** Assemble, load, fetch, decode: every word of a loaded program decodes to the instruction
      it was assembled from. */
  lemma LoadedProgramDecodes(mem: seq<uint8>, prog: seq<Instr>, k: nat)
    requires Program(prog) && k < |prog| && 4 * |prog| <= |mem|
    ensures Decode(Get32(Overlay(mem, 0, Image(prog)), 4 * k)) == prog[k]
  {
    ImageWord(prog, k);
    OverlayWord(mem, Image(prog), 4 * k);
    DecodeEncode(prog[k], Get32(Overlay(mem, 0, Image(prog)), 4 * k));
  }
}
