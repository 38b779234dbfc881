/** Byte strings, optional values and the 32-bit arithmetic shared by the other modules. */
module Octets {
  /** One byte of a C++ `std::string`, written as a character. */
  type Octet = c: char | c as int < 256 witness 'a'

  type Bytes = seq<Octet>

  datatype Option<+T> = None | Some(value: T)

  const INT32_LIMIT := 0x8000_0000

  /** Conversion of an integer to a signed 32-bit `int`. */
  function AsInt32(n: int): (r: int)
    ensures -INT32_LIMIT <= r < INT32_LIMIT
    ensures (n - r) % (2 * INT32_LIMIT) == 0
    ensures -INT32_LIMIT <= n < INT32_LIMIT ==> r == n
  {
    (n + INT32_LIMIT) % (2 * INT32_LIMIT) - INT32_LIMIT
  }

  function Min(a: int, b: int): int {
    if a < b then a else b
  }

  lemma Associative(a: Bytes, b: Bytes, c: Bytes)
    ensures (a + b) + c == a + (b + c)
  {
  }
}
