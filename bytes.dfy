/** Java's `byte`, modelled by the unsigned value of the eight bits it stores. */
module Bytes {

  /** The stored bits read as an unsigned number; Java itself reads them back as `Signed(b)`. */
  type byte = x: int | 0 <= x < 256

  /** Java's narrowing cast `(byte) x`: keeps the low eight bits of `x`. */
  function ToByte(x: int): byte
  {
    x % 256
  }

  /** The value Java's `byte` holds: the eight bits read in two's complement. */
  function Signed(b: byte): int
  {
    if b < 128 then b else b - 256
  }

  /** True when every byte of `block` is zero (the "empty" character or sprite). */
  predicate AllZero(block: seq<byte>)
  {
    forall k :: 0 <= k < |block| ==> block[k] == 0
  }

  /** True when some byte of `block` is not zero. */
  method ContainsAnyBits(block: array<byte>) returns (found: bool)
    ensures found <==> !AllZero(block[..])
  {
    var k := 0;
    while k < block.Length
      invariant k <= block.Length
      invariant AllZero(block[..k])
    {
      if block[k] != 0 {
        assert block[..][k] != 0;
        return true;
      }
      k := k + 1;
    }
    assert block[..k] == block[..];
    return false;
  }
}
