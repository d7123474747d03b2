/** Bytes and the 8-byte encodings of counters. */
module Bytes {
  newtype Byte = x: int | 0 <= x < 256

  /** The `width` low bytes of `n`, least significant first; higher ones are cut off. */
  function LittleEndian(n: nat, width: nat): (bytes: seq<Byte>)
    ensures |bytes| == width
  {
    if width == 0 then [] else [(n % 256) as Byte] + LittleEndian(n / 256, width - 1)
  }

  function Le8(n: nat): seq<Byte> {
    LittleEndian(n, 8)
  }

  /** The number that bytes spell, least significant first. */
  function Value(bytes: seq<Byte>): nat {
    if bytes == [] then 0 else bytes[0] as int + 256 * Value(bytes[1..])
  }

  function Power256(width: nat): nat {
    if width == 0 then 1 else 256 * Power256(width - 1)
  }

  /** Reading the bytes gives the number back, if it fits. */
  lemma {:induction false} EncodingIsRead(n: nat, width: nat)
    requires n < Power256(width)
    ensures Value(LittleEndian(n, width)) == n
    decreases width
  {
    if width > 0 {
      EncodingIsRead(n / 256, width - 1);
      assert LittleEndian(n, width)[1..] == LittleEndian(n / 256, width - 1);
    }
  }

  /** Different 64-bit counters have different encodings. */
  lemma CountersDiffer(m: nat, n: nat)
    requires m < 0x1_0000_0000_0000_0000 && n < 0x1_0000_0000_0000_0000
    ensures Le8(m) == Le8(n) ==> m == n
  {
    assert Power256(8) == 0x1_0000_0000_0000_0000;
    EncodingIsRead(m, 8);
    EncodingIsRead(n, 8);
  }

  lemma LowByteFirst()
    ensures Le8(0x0102) == [2, 1, 0, 0, 0, 0, 0, 0]
  {
  }

  lemma {:induction false} ZeroBytes(width: nat)
    ensures LittleEndian(0, width) == seq(width, i => 0)
  {
    if width > 0 {
      ZeroBytes(width - 1);
    }
  }
}
