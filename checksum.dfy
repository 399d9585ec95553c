// CalcChecksum12: the sum of 12-bit samples packed two per three bytes, shifted right by
// four bits and masked to twelve.

module Checksum {
  import opened Common
  import opened Modis

  /** Bytes needed to hold n packed 12-bit samples: ceil(3n/2). */
  function NeededBytes(n: nat): nat {
    (3 * n + 1) / 2
  }

  /**
   * Sample j of a packed buffer: an even sample is byte 3k and the high nibble of byte 3k+1,
   * an odd sample the low nibble of byte 3k+1 and byte 3k+2, where k = j/2.
   */
  function Sample(buf: seq<Byte>, j: nat): (x: int)
    requires |buf| >= NeededBytes(j + 1)
    ensures 0 <= x < 4096
  {
    var k := j / 2;
    if j % 2 == 0 then buf[3 * k] as int * 16 + buf[3 * k + 1] / 16
    else (buf[3 * k + 1] as int % 16) * 256 + buf[3 * k + 2]
  }

  /** The sum of the first n samples. */
  function SampleSum(buf: seq<Byte>, n: nat): (s: int)
    requires |buf| >= NeededBytes(n)
    ensures 0 <= s <= 4095 * n
  {
    if n == 0 then 0 else SampleSum(buf, n - 1) + Sample(buf, n - 1)
  }

  /** The checksum of n samples; a count of zero or less gives 0. */
  function Checksum12(buf: seq<Byte>, n: int): (c: int)
    requires n <= 0 || |buf| >= NeededBytes(n)
    ensures 0 <= c < 4096
    ensures n <= 0 ==> c == 0
  {
    if n <= 0 then 0 else (SampleSum(buf, n) / 16) % 4096
  }

  /**
   * CalcChecksum12 as the C loop runs it: the counter advances twice per pass, the odd
   * sample is indexed through i - 1, and `(int)(1.5 * i)` is exact because i is even there.
   */
  method CalcChecksum12(buf: seq<Byte>, n: int) returns (r: int)
    requires n <= 0 || |buf| >= NeededBytes(n)
    ensures r == Checksum12(buf, n)
  {
    var s := 0;
    var i := 0;
    while i < n
      invariant 0 <= i && i % 2 == 0 && (i == 0 || i <= n)
      invariant s == SampleSum(buf, i)
    {
      PairAt(buf, i, n);
      var x := buf[3 * i / 2] as int * 16 + buf[3 * i / 2 + 1] / 16;
      s := s + x;
      i := i + 1;
      if i >= n {
        break;
      }
      x := (buf[3 * (i - 1) / 2 + 1] as int % 16) * 256 + buf[3 * (i - 1) / 2 + 2];
      s := s + x;
      i := i + 1;
    }
    r := if n <= 0 then s else (s / 16) % 4096;
  }

  /** The samples at an even position i and after it, as the C loop indexes them. */
  lemma PairAt(buf: seq<Byte>, i: nat, n: int)
    requires i % 2 == 0 && i < n && |buf| >= NeededBytes(n)
    ensures 3 * i / 2 + 1 < |buf|
    ensures SampleSum(buf, i + 1) == SampleSum(buf, i) + buf[3 * i / 2] as int * 16 + buf[3 * i / 2 + 1] / 16
    ensures i + 1 < n ==> (3 * i / 2 + 2 < |buf| && SampleSum(buf, i + 2) == SampleSum(buf, i + 1)
      + (buf[3 * i / 2 + 1] as int % 16) * 256 + buf[3 * i / 2 + 2])
  {
    assert 3 * i / 2 == 3 * (i / 2);
  }

  /** Buffers whose samples agree have the same sum. */
  lemma {:induction false} SampleSumBySamples(p: seq<Byte>, q: seq<Byte>, n: nat)
    requires |p| >= NeededBytes(n) && |q| >= NeededBytes(n)
    requires forall j :: 0 <= j < n ==> Sample(p, j) == Sample(q, j)
    ensures SampleSum(p, n) == SampleSum(q, n)
  {
    if n > 0 {
      SampleSumBySamples(p, q, n - 1);
    }
  }

  /** Only the bytes below ceil(3n/2) take part in the checksum. */
  lemma ChecksumReadsOnlyNeededBytes(p: seq<Byte>, q: seq<Byte>, n: nat)
    requires |p| >= NeededBytes(n) && |q| >= NeededBytes(n)
    requires p[..NeededBytes(n)] == q[..NeededBytes(n)]
    ensures Checksum12(p, n) == Checksum12(q, n)
  {
    forall j | 0 <= j < n ensures Sample(p, j) == Sample(q, j) {
      var k := j / 2;
      assert p[3 * k] == p[..NeededBytes(n)][3 * k];
      assert q[3 * k] == q[..NeededBytes(n)][3 * k];
      assert p[3 * k + 1] == p[..NeededBytes(n)][3 * k + 1];
      assert q[3 * k + 1] == q[..NeededBytes(n)][3 * k + 1];
      if j % 2 == 1 {
        assert p[3 * k + 2] == p[..NeededBytes(n)][3 * k + 2];
        assert q[3 * k + 2] == q[..NeededBytes(n)][3 * k + 2];
      }
    }
    SampleSumBySamples(p, q, n);
  }

  /**
   * The sample count the callers pass, `(len - MODIS_HDR_SIZE) / 1.5 - 1` converted to int
   * (truncation toward zero), computed here over the reals.
   */
  function SampleCount(len: int): int {
    var x := (len - ModisHdrSize) as real / 1.5 - 1.0;
    if x >= 0.0 then x.Floor else -((-x).Floor)
  }

  /**
   * For a MODIS payload the count is (2(len-12)) div 3 - 1, and the samples stay inside the
   * payload and clear of its last byte.
   */
  lemma SampleCountOfPayload(len: int)
    requires len >= MinModisPayload
    ensures SampleCount(len) == (2 * (len - ModisHdrSize)) / 3 - 1
    ensures 0 <= SampleCount(len)
    ensures ModisHdrSize + NeededBytes(SampleCount(len)) <= len - 1
  {
    var m := 2 * (len - ModisHdrSize);
    var q := m / 3;
    var x := (len - ModisHdrSize) as real / 1.5 - 1.0;
    assert x == m as real / 3.0 - 1.0;
    assert q as real <= m as real / 3.0 < (q + 1) as real;
    assert x.Floor == q - 1;
  }

  /** A payload of 12 or 13 bytes gives a count of zero or less: its checksum is 0. */
  lemma SampleCountOfShortPayload(len: int)
    requires ModisHdrSize <= len < MinModisPayload
    ensures SampleCount(len) == if len == ModisHdrSize then -1 else 0
  {
    if len == ModisHdrSize + 1 {
      var x := (len - ModisHdrSize) as real / 1.5 - 1.0;
      assert -x == 1.0 / 3.0;
    }
  }

  /**
   * The checksum the callers compute over payload[12..] ignores the checksum field itself:
   * the low nibble of byte len-2 and all of byte len-1.
   */
  lemma ChecksumIgnoresChecksumField(p: seq<Byte>, q: seq<Byte>)
    requires |p| == |q| >= MinModisPayload
    requires p[..|p| - 2] == q[..|q| - 2] && p[|p| - 2] / 16 == q[|q| - 2] / 16
    ensures var n := SampleCount(|p|);
      Checksum12(p[ModisHdrSize..], n) == Checksum12(q[ModisHdrSize..], n)
  {
    var len := |p|;
    var n := SampleCount(len);
    SampleCountOfPayload(len);
    var ps, qs := p[ModisHdrSize..], q[ModisHdrSize..];
    forall i | 0 <= i < len - ModisHdrSize - 2 ensures ps[i] == qs[i] {
      assert ps[i] == p[..len - 2][i + ModisHdrSize];
      assert qs[i] == q[..len - 2][i + ModisHdrSize];
    }
    forall j | 0 <= j < n ensures Sample(ps, j) == Sample(qs, j) {
      var k := j / 2;
      assert 6 * k + 9 <= 2 * (len - ModisHdrSize) || j % 2 == 0;
    }
    SampleSumBySamples(ps, qs, n);
  }

  /** The shift by four drops the low bits: flipping bit 0 of the last sample goes unseen. */
  lemma LowBitFlipUnseen()
    ensures Checksum12([0, 0, 0], 2) == Checksum12([0, 0, 1], 2) == 0
  {
    assert SampleSum([0, 0, 1], 2) == 1;
  }

  /**
   * The checksum both tools compute for a MODIS payload: CalcChecksum12 over the bytes after
   * the instrument header, with the sample count derived from the payload length.
   */
  function PayloadChecksum(payload: seq<Byte>): (c: int)
    requires |payload| >= ModisHdrSize
    ensures 0 <= c < 4096
    ensures |payload| < MinModisPayload ==> c == 0
  {
    var len := |payload|;
    if len >= MinModisPayload then
      SampleCountOfPayload(len);
      Checksum12(payload[ModisHdrSize..], SampleCount(len))
    else
      SampleCountOfShortPayload(len);
      Checksum12(payload[ModisHdrSize..], SampleCount(len))
  }

  /** The call both tools make: the sample count from the payload length, then the loop. */
  method ComputePayloadChecksum(payload: seq<Byte>) returns (c: int)
    requires |payload| >= ModisHdrSize
    ensures c == PayloadChecksum(payload)
  {
    var n := SampleCount(|payload|);
    if |payload| >= MinModisPayload {
      SampleCountOfPayload(|payload|);
    } else {
      SampleCountOfShortPayload(|payload|);
    }
    c := CalcChecksum12(payload[ModisHdrSize..], n);
  }
}
