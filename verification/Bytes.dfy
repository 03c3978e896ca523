/** Bytes and 16-bit numbers. */
module Bytes {
  type byte = x: int | 0 <= x < 256
  type u16 = x: int | 0 <= x < 0x1_0000

  /** The 16-bit number in network byte order at an offset. */
  function FromNetwork(data: seq<byte>, at: nat): u16
    requires at + 2 <= |data|
  {
    var high: int, low: int := data[at], data[at + 1];
    256 * high + low
  }

  function High(n: u16): byte {
    n / 256
  }

  function Low(n: u16): byte {
    n % 256
  }

  lemma NetworkRoundTrip(data: seq<byte>, at: nat, n: u16)
    requires at + 2 <= |data|
    ensures FromNetwork(data, at) == n <==> data[at] == High(n) && data[at + 1] == Low(n)
  {
  }

  /** Arithmetic in 16-bit variables. */
  function Plus(n: u16, m: u16): u16 {
    if n + m < 0x1_0000 then n + m else n + m - 0x1_0000
  }

  function Minus(n: u16, m: u16): u16 {
    if n >= m then n - m else n - m + 0x1_0000
  }

  lemma WrapsAround(n: u16, m: u16)
    ensures Plus(n, m) == (n + m) % 0x1_0000 && Minus(n, m) == (n - m) % 0x1_0000
    ensures Minus(Plus(n, m), m) == n && Plus(Minus(n, m), m) == n
  {
  }
}
