/** Values shared by every part of the K9A decoder model. */
module Base {

  /** A .NET `byte`: unsigned 8 bits. */
  type byte = bv8

  /** The runtime exceptions the decoder's unchecked indexing can raise. The callers
      catch them per file and report them; nothing else in the core throws. */
  datatype Fault =
    | IndexOutOfRange     // an array index past the end (`data[0]`, `data[1 + E]`, the loop's `encryptedData[i]`)
    | ArgumentOutOfRange  // `Encoding.ASCII.GetString(data, 1, E)` with `1 + E` past the end

  /** A value, or the exception that interrupted its computation. */
  datatype Result<T> = Ok(value: T) | Err(fault: Fault)
}

/** The C# `int` arithmetic the decoder uses, on its 32-bit two's-complement bit pattern.
    A `bv32` holds that pattern exactly, so `<<` discards the bits shifted past bit 31
    and `^` is the bitwise exclusive or, as in unchecked C#. */
module CSharpInt {
  import opened Base

  /** Implicit promotion of a `byte` operand to `int`: zero extension. */
  function WidenByte(b: byte): bv32
  {
    b as bv32
  }

  /** Implicit promotion of a `char` operand to `int`: its code, zero extended. */
  function CharCode(c: char): bv32
  {
    c as bv32
  }

  /** The C# remainder `x % 256` of the signed value whose bit pattern is `x`. C# truncates
      toward zero, so a negative dividend gives a remainder in (-256, 0]; for those the
      remainder is computed on the magnitude `0 - x` and negated again. */
  function Rem256(x: bv32): (r: bv32)
    ensures (x - r) & 0xFF == 0
    ensures x & 0x8000_0000 == 0 ==> r < 256
    ensures x & 0x8000_0000 != 0 ==> 0 - r < 256
  {
    if x & 0x8000_0000 == 0 then x % 256 else 0 - ((0 - x) % 256)
  }

  /** The unchecked narrowing cast `(byte)x`: keeps the low 8 bits of the pattern. */
  function NarrowToByte(x: bv32): byte
  {
    (x & 0xFF) as bv8
  }

  /** `(byte)(x % 256)` is the low byte of `x`, whatever the sign of `x`: the truncating
      remainder differs from `x` by a multiple of 256, which the cast discards. */
  lemma CastOfRemainderIsLowByte(x: bv32)
    ensures NarrowToByte(Rem256(x)) == NarrowToByte(x)
  {
  }

  /** Promoting a `byte` to `int` keeps its value: only the zero byte becomes 0. */
  lemma ByteValueIsZero(b: byte)
    ensures (b as int == 0) <==> (b == 0)
  {
  }
}
