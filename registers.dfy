/** Modbus register data as the bridge handles it: 16-bit registers, packed
    big-endian into a byte buffer (the register encoding of section 4.2 of the
    Modbus Application Protocol Specification V1.1b3), and the 4-byte window a
    metric reads from that buffer. */
module Registers {

  type Byte = b: int | 0 <= b < 0x100
  type Register = r: int | 0 <= r < 0x1_0000

  /** Number of bytes per 16 bit register. */
  const BYTES_PER_REGISTER: int := 2
  /** Number of registers per value (every value is a 32-bit float). */
  const REGISTERS_PER_VALUE: int := 2
  /** Number of bytes a value occupies in the packed buffer. */
  const BYTES_PER_VALUE: int := 4

  /** `struct.pack(">nH", *regs)`: each register as its high byte, then its low byte. */
  function Pack(regs: seq<Register>): (buf: seq<Byte>)
    ensures |buf| == BYTES_PER_REGISTER * |regs|
    ensures forall i :: 0 <= i < |regs| ==>
      buf[2 * i] == regs[i] / 0x100 && buf[2 * i + 1] == regs[i] % 0x100
  {
    if regs == [] then [] else [regs[0] / 0x100, regs[0] % 0x100] + Pack(regs[1..])
  }

  /** The registers a packed buffer of even length holds (the inverse of Pack). */
  function Unpack(buf: seq<Byte>): (regs: seq<Register>)
    requires |buf| % 2 == 0
    ensures |regs| * 2 == |buf|
  {
    if buf == [] then [] else [(buf[0] as int) * 0x100 + buf[1]] + Unpack(buf[2..])
  }

  lemma {:induction false} UnpackPack(regs: seq<Register>)
    ensures Unpack(Pack(regs)) == regs
  {
    if regs != [] {
      UnpackPack(regs[1..]);
      assert Pack(regs)[2..] == Pack(regs[1..]);
    }
  }

  lemma {:induction false} PackUnpack(buf: seq<Byte>)
    requires |buf| % 2 == 0
    ensures Pack(Unpack(buf)) == buf
  {
    if buf != [] {
      var regs := Unpack(buf);
      PackUnpack(buf[2..]);
      assert regs[1..] == Unpack(buf[2..]);
      assert regs[0] / 0x100 == buf[0] && regs[0] % 0x100 == buf[1];
      calc {
        Pack(regs);
        [regs[0] / 0x100, regs[0] % 0x100] + Pack(regs[1..]);
        [buf[0], buf[1]] + buf[2..];
        buf;
      }
    }
  }

  /** The four bytes `struct.unpack_from(">f", buffer, offset)` reads. */
  function Window(buf: seq<Byte>, offset: int): (w: seq<Byte>)
    requires 0 <= offset && offset + BYTES_PER_VALUE <= |buf|
    ensures |w| == BYTES_PER_VALUE
    ensures forall k :: 0 <= k < BYTES_PER_VALUE ==> w[k] == buf[offset + k]
  {
    buf[offset..offset + BYTES_PER_VALUE]
  }

  /** The 32-bit pattern that four bytes hold in big-endian order: the bits of
      the IEEE-754 single-precision value a metric publishes. */
  function Word(w: seq<Byte>): (x: int)
    requires |w| == BYTES_PER_VALUE
    ensures 0 <= x < 0x1_0000_0000
  {
    (((w[0] as int) * 0x100 + w[1]) * 0x100 + w[2]) * 0x100 + w[3]
  }

  /** Reading the window at register k of a packed buffer gives back the two
      registers k and k + 1, high register first: packing loses nothing that
      the decoder needs. */
  lemma WindowOfPack(regs: seq<Register>, k: int)
    requires 0 <= k && k + REGISTERS_PER_VALUE <= |regs|
    ensures Word(Window(Pack(regs), BYTES_PER_REGISTER * k)) == (regs[k] as int) * 0x1_0000 + regs[k + 1]
  {
    var buf := Pack(regs);
    assert buf[2 * k] == regs[k] / 0x100 && buf[2 * k + 1] == regs[k] % 0x100;
    assert buf[2 * (k + 1)] == regs[k + 1] / 0x100 && buf[2 * (k + 1) + 1] == regs[k + 1] % 0x100;
  }
}
