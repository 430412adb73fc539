/** The RAM device (simctty/ram.cc): a host byte array behaving as big-endian memory. */
module Ram {
  import opened Words
  import opened Memory

  class Ram {
    const cells: array<uint8>

    ghost predicate Valid() {
      cells.Length == RAM_SIZE
    }

    /** The contents as big-endian memory. */
    ghost function Bytes(): (mem: seq<uint8>)
      requires Valid()
      reads cells
      ensures |mem| == RAM_SIZE
    {
      BigEndian(cells[..])
    }

    constructor ()
      ensures Valid() && fresh(cells)
    {
      cells := new uint8[RAM_SIZE];
    }

    /** The word the host reads through a raw pointer at index h. */
    function RawWord(h: nat): uint32
      requires Valid() && h + 3 < RAM_SIZE
      reads cells
    {
      Word(cells[h + 3], cells[h + 2], cells[h + 1], cells[h])
    }

    lemma RawWordIsBigEndian(h: nat)
      requires Valid() && h < RAM_SIZE && h % 4 == 0
      ensures h + 3 < RAM_SIZE && RawWord(h) == Get32(Bytes(), h)
    {
      WordLane(cells[..], h);
    }

    method Load8(address: uint32) returns (value: uint8)
      requires Valid() && address < RAM_SIZE
      ensures value == Get8(Bytes(), address)
    {
      ByteLane(cells[..], address, 0);
      value := cells[Bitwise32(XorBits, address, 3)];
    }

    method Store8(address: uint32, value: uint8)
      requires Valid() && address < RAM_SIZE
      modifies cells
      ensures Bytes() == Put8(old(Bytes()), address, value)
    {
      ByteLane(cells[..], address, value);
      cells[Bitwise32(XorBits, address, 3)] := value;
      assert cells[..] == old(cells[..])[Bitwise32(XorBits, address, 3) := value];
    }

    method Load16(address: uint32) returns (value: uint16)
      requires Valid() && address < RAM_SIZE && address % 2 == 0
      ensures value == Get16(Bytes(), address)
    {
      HalfLane(cells[..], address, 0);
      var h := Bitwise32(XorBits, address, 2);
      value := Half(cells[h + 1], cells[h]);
    }

    method Store16(address: uint32, value: uint16)
      requires Valid() && address < RAM_SIZE && address % 2 == 0
      modifies cells
      ensures Bytes() == Put16(old(Bytes()), address, value)
    {
      HalfLane(cells[..], address, value);
      var h := Bitwise32(XorBits, address, 2);
      cells[h], cells[h + 1] := Byte0(value), Byte1(value);
      assert cells[..] == old(cells[..])[h := Byte0(value)][h + 1 := Byte1(value)];
    }

    method Load32(address: uint32) returns (value: uint32)
      requires Valid() && address < RAM_SIZE && address % 4 == 0
      ensures value == Get32(Bytes(), address)
    {
      RawWordIsBigEndian(address);
      value := RawWord(address);
    }

    method Store32(address: uint32, value: uint32)
      requires Valid() && address < RAM_SIZE && address % 4 == 0
      modifies cells
      ensures Bytes() == Put32(old(Bytes()), address, value)
    {
      StoreWordLane(cells[..], address, value);
      cells[address], cells[address + 1], cells[address + 2], cells[address + 3] :=
        Byte0(value), Byte1(value), Byte2(value), Byte3(value);
      assert cells[..] == old(cells[..])[address := Byte0(value)][address + 1 := Byte1(value)]
                         [address + 2 := Byte2(value)][address + 3 := Byte3(value)];
    }

    /** Copies an image into RAM from offset on, each four bytes of it reversed into host order;
        refuses one that does not fit. At a multiple of 4 that is the image in big-endian order.
        The source ends the process on an image that fits and is not a whole number of words. */
    method LoadImage(data: seq<uint8>, offset: nat) returns (ok: bool)
      requires Valid() && (offset + |data| <= RAM_SIZE ==> |data| % 4 == 0)
      modifies cells
      ensures ok == (offset + |data| <= RAM_SIZE)
      ensures !ok ==> cells[..] == old(cells[..])
      ensures ok ==> Filled(old(cells[..]), cells[..], data, offset, |data|)
      ensures ok && offset % 4 == 0 ==> Bytes() == Overlay(old(Bytes()), offset, data)
    {
      if offset + |data| > RAM_SIZE {
        return false;
      }
      CopyWords(data, offset);
      if offset % 4 == 0 {
        ImageLanes(old(cells[..]), cells[..], data, offset);
      }
      return true;
    }

    /** The loop: word by word, the lanes of each reversed. */
    method CopyWords(data: seq<uint8>, offset: nat)
      requires Valid() && offset + |data| <= RAM_SIZE && |data| % 4 == 0
      modifies cells
      ensures Filled(old(cells[..]), cells[..], data, offset, |data|)
    {
      var i := 0;
      while i < |data|
        invariant 0 <= i <= |data| && i % 4 == 0
        invariant Filled(old(cells[..]), cells[..], data, offset, i)
      {
        ghost var before := cells[..];
        cells[offset + i], cells[offset + i + 1], cells[offset + i + 2], cells[offset + i + 3] :=
          data[i + 3], data[i + 2], data[i + 1], data[i];
        FillWord(old(cells[..]), before, cells[..], data, offset, i);
        i := i + 4;
      }
    }
  }
}
