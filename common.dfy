// Shared vocabulary of the two tools: bytes, results, and C's integer division.

module Common {

  /** An unsigned char read from a packet stream. */
  type Byte = b: int | 0 <= b < 256

  /** Unsigned bit fields, named by their width. */
  type Bit = x: int | 0 <= x < 2
  type U2 = x: int | 0 <= x < 4
  type U3 = x: int | 0 <= x < 8
  type U10 = x: int | 0 <= x < 1024
  type U11 = x: int | 0 <= x < 2048
  type U12 = x: int | 0 <= x < 4096
  type U14 = x: int | 0 <= x < 16384
  type U16 = x: int | 0 <= x < 65536
  type U32 = x: int | 0 <= x < 0x1_0000_0000

  datatype Result<+T, +E> = Ok(value: T) | Err(error: E)

  /** How a tool ends: with an exit code, or where the C code reads bytes that are not the
      packet's (a MODIS payload too short for the instrument header). */
  datatype Outcome = Exit(code: int) | Undefined

  /** Exit code 5: a read error, and in pdsinfo also "no valid packets found". */
  const ReadFailure := 5

  /** Milliseconds in a day. */
  const MsPerDay := 86400000

  /** C's `/` on signed integers: the quotient is truncated toward zero. */
  function TruncDiv(a: int, b: int): (q: int)
    requires b > 0
    ensures a >= 0 ==> 0 <= a - q * b < b
    ensures a < 0 ==> -b < a - q * b <= 0
    ensures (a >= 0) == (q >= 0) || q == 0
  {
    if a >= 0 then a / b else -((-a) / b)
  }

  /** Quotient and remainder are unique. */
  lemma DivUnique(x: int, q: int, r: int, d: int)
    requires d > 0 && 0 <= r < d && x == q * d + r
    ensures x / d == q && x % d == r
  {
    var q', r' := x / d, x % d;
    assert (q - q') * d == r' - r;
    if q > q' {
      MulAtLeast(q - q', d);
    } else if q < q' {
      MulAtLeast(q' - q, d);
    }
  }

  /** A non-empty sequence is its front followed by its last element. */
  lemma DropLast<T>(s: seq<T>)
    requires |s| > 0
    ensures s == s[..|s| - 1] + [s[|s| - 1]]
  {
  }

  lemma AppendAssoc<T>(a: seq<T>, b: seq<T>, c: seq<T>)
    ensures a + (b + c) == (a + b) + c
  {
  }

  lemma MulAtLeast(a: int, d: int)
    requires a >= 1 && d > 0
    ensures a * d >= d
  {
  }
}
