/**
 * CRC-32/ISO-HDLC as the bootloader computes it: a table-driven running value that is
 * begun, fed any number of buffers and ended.
 */
module Crc32 {
  import opened Bytes
  import opened Bits
  import opened ShiftRegister

  /** The polynomial 0x04C11DB7 in reflected order. */
  const POLY: nat := 0xEDB8_8320
  const INIT: nat := 0xFFFF_FFFF

  function TableEntry(i: nat): nat {
    Steps(POLY, i, 8)
  }

  /** The table-driven step for one byte. */
  function TableStep(c: nat, b: Byte): nat {
    Xor(c / 0x100, TableEntry(Xor(c, b) % 0x100))
  }

  /** The CRC of one buffer: the register complemented at both ends. */
  function Of(s: seq<Byte>): (crc: nat) {
    Xor(Feed(POLY, INIT, s), INIT)
  }

  lemma PolynomialWidth()
    ensures Polynomial(POLY, 32) && INIT < Pow2(32)
  {
    PowersOfTwo();
  }

  lemma OfIsWord(s: seq<Byte>)
    ensures Of(s) < 0x1_0000_0000
  {
    PowersOfTwo();
    FeedWidth(POLY, 32, INIT, s);
    XorWidth(Feed(POLY, INIT, s), INIT, 32);
  }

  /** The table-driven step computes the bit-serial register. */
  lemma TableStepIsBitSerial(c: nat, b: Byte)
    ensures TableStep(c, b) == ByteStep(POLY, c, b)
  {
    assert Xor(c, b) / 0x100 == c / 0x100 by {
      XorByte(c, b);
    }
    TableShortcut(POLY, Xor(c, b));
  }

  /** The running value after a message. */
  function Running(message: seq<Byte>): nat {
    Feed(POLY, INIT, message)
  }

  method Begin() returns (c: nat)
    ensures c == Running([])
  {
    c := INIT;
  }

  /** Feed one more buffer after the message so far. */
  method FeedBuffer(running: nat, buf: seq<Byte>, ghost sofar: seq<Byte>) returns (c: nat)
    requires running == Running(sofar)
    ensures c == Running(sofar + buf)
  {
    c := running;
    for i := 0 to |buf|
      invariant c == Feed(POLY, running, buf[..i])
    {
      assert buf[..i + 1][..i] == buf[..i];
      TableStepIsBitSerial(c, buf[i]);
      c := TableStep(c, buf[i]);
    }
    assert buf[..|buf|] == buf;
    FeedConcat(POLY, INIT, sofar, buf);
  }

  /** The CRC of the whole message, however it was cut into buffers. */
  method End(running: nat, ghost message: seq<Byte>) returns (crc: nat)
    requires running == Running(message)
    ensures crc == Of(message)
  {
    crc := Xor(running, INIT);
  }
}
