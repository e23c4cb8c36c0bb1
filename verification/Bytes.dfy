/**
 * Bytes and big-endian integers.
 */
module Bytes {

  type byte = b: int | 0 <= b < 0x100
  type u16 = n: int | 0 <= n < 0x1_0000

  // The cast `as u16`.
  function Truncate16(n: nat): (r: u16)
    ensures n < 0x1_0000 ==> r == n
    ensures r <= n
  {
    n % 0x1_0000
  }

  function ToBe16(n: u16): (r: seq<byte>)
    ensures |r| == 2
  {
    [n / 0x100, n % 0x100]
  }

  function FromBe16(hi: byte, lo: byte): u16 {
    hi * 0x100 + lo
  }

  lemma Be16RoundTrip(n: u16)
    ensures FromBe16(ToBe16(n)[0], ToBe16(n)[1]) == n
  {
  }

  lemma Be16Inverse(hi: byte, lo: byte)
    ensures ToBe16(FromBe16(hi, lo)) == [hi, lo]
  {
  }
}
