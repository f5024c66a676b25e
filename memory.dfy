/**
 * Byte-addressed memory: the loads read little-endian values out of the
 * `Memory` record, the stores write them into a byte array in place.
 */
module Memory {
  import opened Bits


  /** The `Memory` record: the bytes and the size the simulator allocated. */
  datatype Memory = Memory(data: seq<uint8>, size: uint32)

  // ---------------------------------------------------------------------
  // Loads. Each reads `width` bytes starting at `addr`, which must lie in
  // the data; the simulator itself does not check.

  /** `loadB`: one byte read as `int8_t`, widened to 32 bits. */
  function LoadB(mem: Memory, addr: uint32): (r: uint32)
    requires addr < |mem.data|
    ensures r % 0x100 == mem.data[addr]
    ensures r == if mem.data[addr] < 0x80 then mem.data[addr] else mem.data[addr] as int + 0xFFFF_FF00
  {
    ToUint32(ToInt8(mem.data[addr]))
  }

  /** `loadHW`: two bytes, little-endian, read as `int16_t`, widened to 32 bits. */
  function LoadHW(mem: Memory, addr: uint32): (r: uint32)
    requires addr as int + 2 <= |mem.data|
    ensures var h := LittleEndian(mem.data[addr..addr + 2]);
      r % 0x1_0000 == h && r == if h < 0x8000 then h else h + 0xFFFF_0000
  {
    var h := Or(mem.data[addr], Shl32(mem.data[addr + 1], 8));
    LittleEndian2(mem.data[addr..addr + 2]);
    PackBytes(mem.data[addr], mem.data[addr + 1], 0, 0);
    SignedHalf(h);
    ToUint32(ToInt16(h))
  }

  /** `loadW`: four bytes, little-endian. */
  function LoadW(mem: Memory, addr: uint32): (r: uint32)
    requires addr as int + 4 <= |mem.data|
    ensures r == LittleEndian(mem.data[addr..addr + 4])
  {
    var b0, b1, b2, b3 := mem.data[addr], mem.data[addr + 1], mem.data[addr + 2], mem.data[addr + 3];
    PackBytes(b0, b1, b2, b3);
    LittleEndian4(mem.data[addr..addr + 4]);
    Or(Or(Or(b0, Shl32(b1, 8)), Shl32(b2, 16)), Shl32(b3, 24))
  }

  /** `loadBU`: one byte, zero-extended. */
  function LoadBU(mem: Memory, addr: uint32): (r: uint32)
    requires addr < |mem.data|
    ensures r == LittleEndian(mem.data[addr..addr + 1])
  {
    assert mem.data[addr..addr + 1][1..] == [];
    mem.data[addr]
  }

  /** `loadHWU`: two bytes, little-endian, zero-extended. */
  function LoadHWU(mem: Memory, addr: uint32): (r: uint32)
    requires addr as int + 2 <= |mem.data|
    ensures r == LittleEndian(mem.data[addr..addr + 2])
  {
    PackBytes(mem.data[addr], mem.data[addr + 1], 0, 0);
    LittleEndian2(mem.data[addr..addr + 2]);
    Or(mem.data[addr], Shl32(mem.data[addr + 1], 8))
  }

  // ---------------------------------------------------------------------
  // Stores. Each writes the little-endian bytes of `value` at `addr`.

  /** `storeByte`. */
  method StoreByte(memory: array<uint8>, addr: uint32, value: uint8)
    requires addr < memory.Length
    modifies memory
    ensures memory[..] == Splice(old(memory[..]), addr, Bytes(value, 1))
  {
    memory[addr] := value;
    assert Bytes(value, 1) == [value];
  }

  /** `storeHalfword`: low byte first. */
  method StoreHalfword(memory: array<uint8>, addr: uint32, value: uint16)
    requires addr as int + 2 <= memory.Length
    modifies memory
    ensures memory[..] == Splice(old(memory[..]), addr, Bytes(value, 2))
  {
    ByteMasks(value);
    var x0: uint8, x1: uint8 := value % 0x100, (value / 0x100) % 0x100;
    ghost var m0 := memory[..];
    memory[addr] := And(value, 0xFF);
    ghost var m1 := memory[..];
    assert m1 == m0[addr := x0];
    memory[addr + 1] := And(Shr(value, 8), 0xFF);
    assert memory[..] == m1[addr + 1 := x1];
    BytesOfHalf(value);
    SpliceTwo(m0, addr, x0, x1);
  }

  /** `storeWord`: low byte first. */
  method StoreWord(memory: array<uint8>, addr: uint32, value: uint32)
    requires addr as int + 4 <= memory.Length
    modifies memory
    ensures memory[..] == Splice(old(memory[..]), addr, Bytes(value, 4))
  {
    ByteMasks(value);
    var x0: uint8, x1: uint8 := value % 0x100, (value / 0x100) % 0x100;
    var x2: uint8, x3: uint8 := (value / 0x1_0000) % 0x100, (value / 0x100_0000) % 0x100;
    ghost var m0 := memory[..];
    memory[addr] := And(value, 0xFF);
    ghost var m1 := memory[..];
    assert m1 == m0[addr := x0];
    memory[addr + 1] := And(Shr(value, 8), 0xFF);
    ghost var m2 := memory[..];
    assert m2 == m1[addr + 1 := x1];
    memory[addr + 2] := And(Shr(value, 16), 0xFF);
    ghost var m3 := memory[..];
    assert m3 == m2[addr + 2 := x2];
    memory[addr + 3] := And(Shr(value, 24), 0xFF);
    assert memory[..] == m3[addr + 3 := x3];
    BytesOfWord(value);
    SpliceFour(m0, addr, x0, x1, x2, x3);
  }

  // ---------------------------------------------------------------------
  // The reference view: little-endian byte strings.

  /** The value of a little-endian byte string. */
  function LittleEndian(bytes: seq<uint8>): nat {
    if |bytes| == 0 then 0 else bytes[0] + 0x100 * LittleEndian(bytes[1..])
  }

  /** The `n` low bytes of `v`, least significant first. */
  function Bytes(v: nat, n: nat): (bytes: seq<uint8>)
    ensures |bytes| == n
  {
    if n == 0 then [] else [v % 0x100] + Bytes(v / 0x100, n - 1)
  }

  /** `data` with `bytes` written over it from `addr` on. */
  function Splice(data: seq<uint8>, addr: nat, bytes: seq<uint8>): (r: seq<uint8>)
    requires addr + |bytes| <= |data|
    ensures |r| == |data|
    ensures r[addr..addr + |bytes|] == bytes
    ensures forall i :: 0 <= i < |data| && !(addr <= i < addr + |bytes|) ==> r[i] == data[i]
  {
    data[..addr] + bytes + data[addr + |bytes|..]
  }

  // ---------------------------------------------------------------------
  // Lemmas.

  /** ORing four bytes shifted by 0, 8, 16 and 24 adds them. */
  lemma PackBytes(b0: uint8, b1: uint8, b2: uint8, b3: uint8)
    ensures Or(b0, Shl32(b1, 8)) == b0 + b1 * 0x100
    ensures Or(Or(Or(b0, Shl32(b1, 8)), Shl32(b2, 16)), Shl32(b3, 24))
         == b0 + b1 * 0x100 + b2 * 0x1_0000 + b3 * 0x100_0000
  {
    Pow2Small();
    Pow2Large();
    var s1, s2, s3 := b1 * 0x100, b2 * 0x1_0000, b3 * 0x100_0000;
    Shl32Value(b1, 8, 8, 0x100);
    Shl32Value(b2, 8, 16, 0x1_0000);
    Shl32Value(b3, 8, 24, 0x100_0000);
    OrCommutes(b0, s1);
    OrAligned(s1, b0, b1, 8, 0x100);
    OrCommutes(b0 + s1, s2);
    OrAligned(s2, b0 + s1, b2, 16, 0x1_0000);
    OrCommutes(b0 + s1 + s2, s3);
    OrAligned(s3, b0 + s1 + s2, b3, 24, 0x100_0000);
  }

  lemma LittleEndian2(s: seq<uint8>)
    requires |s| == 2
    ensures LittleEndian(s) == s[0] as int + s[1] as int * 0x100
  {
    assert s[1..][1..] == [];
    assert LittleEndian(s[1..]) == s[1] as int;
  }

  lemma LittleEndian4(s: seq<uint8>)
    requires |s| == 4
    ensures LittleEndian(s) == s[0] as int + s[1] as int * 0x100 + s[2] as int * 0x1_0000 + s[3] as int * 0x100_0000
  {
    assert s[1..][1..][1..][1..] == [];
    assert LittleEndian(s[1..][1..][1..]) == s[3];
    assert LittleEndian(s[1..][1..]) == s[2] as int + 0x100 * s[3] as int;
  }

  /** The `int16_t` reading of a halfword, widened to 32 bits. */
  lemma SignedHalf(h: uint16)
    ensures ToUint32(ToInt16(h)) == if h < 0x8000 then h else h + 0xFFFF_0000
    ensures ToUint32(ToInt16(h)) % 0x1_0000 == h
  {
    if h < 0x8000 {
      ModSmall(h, 0x1_0000_0000);
      ModSmall(h, 0x1_0000);
    } else {
      DivModUnique(h - 0x1_0000, 0x1_0000_0000, -1, h + 0xFFFF_0000);
      DivModUnique(h + 0xFFFF_0000, 0x1_0000, 0xFFFF, h);
    }
  }

  lemma BytesOfHalf(v: uint16)
    ensures Bytes(v, 2) == [v % 0x100, (v / 0x100) % 0x100]
  {
    assert Bytes(v, 2) == [v % 0x100] + Bytes(v / 0x100, 1);
  }

  lemma BytesOfWord(v: uint32)
    ensures Bytes(v, 4) == [v % 0x100, (v / 0x100) % 0x100, (v / 0x1_0000) % 0x100, (v / 0x100_0000) % 0x100]
  {
    DivDiv(v, 0x100, 0x100);
    DivDiv(v, 0x1_0000, 0x100);
    assert Bytes(v / 0x1_0000, 2) == [(v / 0x1_0000) % 0x100] + Bytes(v / 0x100_0000, 1);
    assert Bytes(v / 0x100, 3) == [(v / 0x100) % 0x100] + Bytes(v / 0x1_0000, 2);
  }

  lemma SpliceTwo(d: seq<uint8>, addr: nat, x0: uint8, x1: uint8)
    requires addr + 2 <= |d|
    ensures Splice(d, addr, [x0, x1]) == d[addr := x0][addr + 1 := x1]
  {
  }

  lemma SpliceFour(d: seq<uint8>, addr: nat, x0: uint8, x1: uint8, x2: uint8, x3: uint8)
    requires addr + 4 <= |d|
    ensures Splice(d, addr, [x0, x1, x2, x3]) == d[addr := x0][addr + 1 := x1][addr + 2 := x2][addr + 3 := x3]
  {
  }

  /** The masks of the stores pick the bytes of the value. */
  lemma ByteMasks(v: uint32)
    ensures And(v, 0xFF) == v % 0x100
    ensures And(Shr(v, 8), 0xFF) == (v / 0x100) % 0x100
    ensures And(Shr(v, 16), 0xFF) == (v / 0x1_0000) % 0x100
    ensures And(Shr(v, 24), 0xFF) == (v / 0x100_0000) % 0x100
  {
    Pow2Small();
    Pow2Large();
    AndLowMask(v, 8);
    AndLowMask(Shr(v, 8), 8);
    AndLowMask(Shr(v, 16), 8);
    AndLowMask(Shr(v, 24), 8);
  }

  // ---------------------------------------------------------------------
  // Bytes and LittleEndian are inverse; a store followed by a load of the
  // same width at the same address gives the value back.

  /** Reading back the `n` low bytes of `v` gives `v` modulo 2^(8n). */
  lemma {:induction false} LittleEndianBytes(v: nat, n: nat)
    ensures LittleEndian(Bytes(v, n)) == v % Pow2(8 * n)
  {
    if n > 0 {
      var bs := Bytes(v, n);
      assert bs[1..] == Bytes(v / 0x100, n - 1);
      LittleEndianBytes(v / 0x100, n - 1);
      Pow2Add(8, 8 * (n - 1));
      Pow2Small();
      DivDiv(v, 0x100, Pow2(8 * (n - 1)));
    }
  }

  /** Splitting the value of a byte string into bytes gives the string back. */
  lemma {:induction false} BytesLittleEndian(bytes: seq<uint8>)
    ensures Bytes(LittleEndian(bytes), |bytes|) == bytes
  {
    if |bytes| > 0 {
      var x, rest := LittleEndian(bytes), LittleEndian(bytes[1..]);
      DivModUnique(x, 0x100, rest, bytes[0]);
      BytesLittleEndian(bytes[1..]);
      assert Bytes(x, |bytes|) == [bytes[0]] + bytes[1..];
    }
  }

  /** A string of `n` bytes holds a value below 2^(8n). */
  lemma LittleEndianBound(bytes: seq<uint8>)
    ensures LittleEndian(bytes) < Pow2(8 * |bytes|)
  {
    BytesLittleEndian(bytes);
    LittleEndianBytes(LittleEndian(bytes), |bytes|);
  }

  /** `storeWord` then `loadW` at the same address. */
  lemma StoreWordLoadWord(data: seq<uint8>, size: uint32, addr: uint32, v: uint32)
    requires addr as int + 4 <= |data|
    ensures LoadW(Memory(Splice(data, addr, Bytes(v, 4)), size), addr) == v
  {
    LittleEndianBytes(v, 4);
    Pow2Small();
    Pow2Large();
    ModSmall(v, Pow2(32));
  }

  /** `storeHalfword` then `loadHWU` gives the halfword, `loadHW` its sign extension. */
  lemma StoreHalfwordLoadHalfword(data: seq<uint8>, size: uint32, addr: uint32, v: uint16)
    requires addr as int + 2 <= |data|
    ensures LoadHWU(Memory(Splice(data, addr, Bytes(v, 2)), size), addr) == v
    ensures LoadHW(Memory(Splice(data, addr, Bytes(v, 2)), size), addr) == ToUint32(ToInt16(v))
  {
    LittleEndianBytes(v, 2);
    Pow2Small();
    Pow2Large();
    ModSmall(v, Pow2(16));
    SignedHalf(v);
  }

  /** `storeByte` then `loadBU` gives the byte, `loadB` its sign extension. */
  lemma StoreByteLoadByte(data: seq<uint8>, size: uint32, addr: uint32, v: uint8)
    requires addr < |data|
    ensures LoadBU(Memory(Splice(data, addr, Bytes(v, 1)), size), addr) == v
    ensures LoadB(Memory(Splice(data, addr, Bytes(v, 1)), size), addr) == ToUint32(ToInt8(v))
  {
    assert Bytes(v, 1) == [v];
  }

  /** A store leaves a word load elsewhere unchanged. */
  lemma StoreFrameLoadWord(data: seq<uint8>, size: uint32, addr: uint32, bytes: seq<uint8>, at: uint32)
    requires addr as int + |bytes| <= |data| && at as int + 4 <= |data|
    requires at as int + 4 <= addr || addr as int + |bytes| <= at
    ensures LoadW(Memory(Splice(data, addr, bytes), size), at) == LoadW(Memory(data, size), at)
  {
    assert Splice(data, addr, bytes)[at..at + 4] == data[at..at + 4];
  }
}
