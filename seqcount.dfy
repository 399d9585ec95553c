// The 14-bit packet sequence count: the gap arithmetic of pdsinfo and the wrapped
// difference `pktdiff` of pdsmerge.

module SeqCount {

  /** Sequence counts are 14 bits wide. */
  const Modulus := 16384

  predicate IsCount(c: int) {
    0 <= c < Modulus
  }

  /**
   * The number of packets missing between a packet with count `last` and the next one of the
   * same APID with count `cur`: forward distance minus one, modulo 16384. A repeated count
   * gives the maximum, 16383, which pdsinfo reports as a duplicate.
   */
  function Missing(cur: int, last: int): (m: int)
    requires IsCount(cur) && IsCount(last)
    ensures m == (cur - last - 1) % Modulus
    ensures 0 <= m < Modulus
    ensures m == Modulus - 1 <==> cur == last
    ensures cur == (last + m + 1) % Modulus
  {
    if cur > last then cur - last - 1 else cur - last + 16383
  }

  /**
   * `pktdiff`: a - b brought into [-8192, 8191] by the two corrections of pdsmerge; it is
   * congruent to a - b and zero only for equal counts.
   */
  function PktDiff(a: int, b: int): (d: int)
    requires IsCount(a) && IsCount(b)
    ensures -8192 <= d <= 8191
    ensures (d - (a - b)) % Modulus == 0
    ensures d == 0 <==> a == b
  {
    var d0 := a - b;
    var d1 := if d0 < -8191 then d0 + 16384 else d0;
    if d1 > 8191 then d1 - 16384 else d1
  }

  /** The wrapped difference is antisymmetric except at the half-range point -8192. */
  lemma PktDiffAntisymmetric(a: int, b: int)
    requires IsCount(a) && IsCount(b)
    requires PktDiff(a, b) != -8192
    ensures PktDiff(b, a) == -PktDiff(a, b)
  {
  }

  /** Counts 0, 1, ..., 16383, 0 in a row leave no gaps. */
  lemma ConsecutiveCountsMissNothing(last: int)
    requires IsCount(last)
    ensures Missing((last + 1) % Modulus, last) == 0
  {
  }
}
