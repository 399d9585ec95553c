// The 12-byte MODIS secondary header at the start of every MODIS payload, and the 12-bit
// checksum field held in the payload's last two bytes (DecodeMODISHdr in both tools).

module Modis {
  import opened Common

  /** MODIS_HDR_SIZE */
  const ModisHdrSize := 12

  /** The smallest payload from which the checksum's sample count is `2 * (len - 12) / 3 - 1`
      in integer arithmetic; shorter MODIS payloads sum no sample. */
  const MinModisPayload := 14

  /** MODIS APIDs are 64..127. */
  predicate IsModisApid(apid: int) {
    64 <= apid <= 127
  }

  /**
   * Day Segmented time code (CCSDS 301.0-B, section 3.3): days since 1958-01-01,
   * millisecond of the day, microsecond of the millisecond.
   */
  datatype Timestamp = Timestamp(days: int, millisec: int, microsec: int)

  /** Strict lexicographic order on (days, millisec, microsec). */
  predicate TsLess(a: Timestamp, b: Timestamp) {
    a.days < b.days
    || (a.days == b.days && a.millisec < b.millisec)
    || (a.days == b.days && a.millisec == b.millisec && a.microsec < b.microsec)
  }

  /** The fields of `struct modis_hdr`, each within its bit width. */
  datatype ModisHdr = ModisHdr(
    days: U16,
    millisec: U32,
    microsec: U16,
    ql: Bit,
    pktType: U3,
    scanCount: U3,
    mirrorSide: Bit,
    src1: Bit,
    src2: U11,
    conf: U10,
    sciState: Bit,
    sciAbnorm: Bit,
    checksum: U12)

  function TimeOf(m: ModisHdr): Timestamp {
    Timestamp(m.days, m.millisec, m.microsec)
  }

  /** The checksum field: low nibble of byte len-2 above byte len-1. */
  function ChecksumField(payload: seq<Byte>): (c: int)
    requires |payload| >= 2
    ensures 0 <= c < 4096
  {
    (payload[|payload| - 2] as int % 16) * 256 + payload[|payload| - 1]
  }

  /**
   * DecodeMODISHdr. The C code reads bytes 0..11 and len-2, len-1 of its buffer without a
   * length check; below 12 bytes the header bytes are not the packet's, so the model asks for
   * at least the instrument header (the checksum field may overlap it).
   */
  function DecodeModisHdr(payload: seq<Byte>): (m: ModisHdr)
    requires |payload| >= ModisHdrSize
    ensures m.checksum == ChecksumField(payload)
    ensures m.days == payload[0] as int * 256 + payload[1]
  {
    var b := payload;
    ModisHdr(
      b[0] as int * 0x100 + b[1],
      b[2] as int * 0x100_0000 + b[3] as int * 0x1_0000 + b[4] as int * 0x100 + b[5],
      b[6] as int * 0x100 + b[7],
      b[8] / 128,
      (b[8] / 16) % 8,
      (b[8] / 2) % 8,
      b[8] % 2,
      b[9] / 128,
      (b[9] as int % 128) * 16 + b[10] / 16,
      (b[10] as int % 16) * 64 + b[11] / 4,
      (b[11] / 2) % 2,
      b[11] % 2,
      ChecksumField(b))
  }

  /** Packs the instrument fields back into the 12 header bytes. */
  function EncodeModisHdr(m: ModisHdr): (b: seq<Byte>)
    ensures |b| == ModisHdrSize
  {
    [ m.days / 0x100, m.days % 0x100,
      m.millisec / 0x100_0000, (m.millisec / 0x1_0000) % 0x100,
      (m.millisec / 0x100) % 0x100, m.millisec % 0x100,
      m.microsec / 0x100, m.microsec % 0x100,
      m.ql * 128 + m.pktType * 16 + m.scanCount * 2 + m.mirrorSide,
      m.src1 * 128 + m.src2 / 16,
      (m.src2 % 16) * 16 + m.conf / 64,
      (m.conf % 64) * 4 + m.sciState * 2 + m.sciAbnorm ]
  }

  /** The decoder looks at bytes 0..11, len-2 and len-1 and at nothing else. */
  lemma {:induction false} DecodeReadsOnlyHeaderAndChecksum(p: seq<Byte>, q: seq<Byte>)
    requires |p| == |q| >= ModisHdrSize
    requires p[..ModisHdrSize] == q[..ModisHdrSize]
    requires p[|p| - 2] == q[|q| - 2] && p[|p| - 1] == q[|q| - 1]
    ensures DecodeModisHdr(p) == DecodeModisHdr(q)
  {
    forall k | 0 <= k < ModisHdrSize ensures p[k] == q[k] {
      assert p[k] == p[..ModisHdrSize][k];
    }
  }

  /** Decoding a payload that starts with an encoded header gives those fields back. */
  lemma DecodeEncode(m: ModisHdr, payload: seq<Byte>)
    requires |payload| >= ModisHdrSize && payload[..ModisHdrSize] == EncodeModisHdr(m)
    ensures DecodeModisHdr(payload) == m.(checksum := ChecksumField(payload))
  {
    var b := EncodeModisHdr(m);
    forall k | 0 <= k < ModisHdrSize ensures payload[k] == b[k] {
      assert payload[k] == payload[..ModisHdrSize][k];
    }
    var d := DecodeModisHdr(payload);
    Join32(m.millisec);
    Flags8(b[8], m.ql, m.pktType, m.scanCount, m.mirrorSide);
    Split7x4(b[9], b[10], m.src1, m.src2, m.conf / 64);
    Split4x6(b[10], b[11], m.src2 % 16, m.conf, m.sciState * 2 + m.sciAbnorm);
    assert d.days == m.days;
    assert d.millisec == m.millisec;
    assert d.microsec == m.microsec;
  }

  /** The decode of the 12 header bytes is lossless. */
  lemma EncodeDecode(payload: seq<Byte>)
    requires |payload| >= ModisHdrSize
    ensures EncodeModisHdr(DecodeModisHdr(payload)) == payload[..ModisHdrSize]
  {
    var m := DecodeModisHdr(payload);
    var b := EncodeModisHdr(m);
    var p := payload;
    DivUnique(m.days, p[0] as int, p[1] as int, 0x100);
    assert b[0] == p[0] && b[1] == p[1];
    Split32(p[2], p[3], p[4], p[5]);
    assert b[2] == p[2] && b[3] == p[3] && b[4] == p[4] && b[5] == p[5];
    DivUnique(m.microsec, p[6] as int, p[7] as int, 0x100);
    assert b[6] == p[6] && b[7] == p[7];
    assert b[8] == p[8] by { Rejoin8(p[8]); }
    assert b[9] == p[9] && b[10] == p[10] by { Rejoin9and10(p[9], p[10], p[11]); }
    assert b[11] == p[11] by {
      Rejoin9and10(p[9], p[10], p[11]);
      Rejoin8(p[11]);
    }
    forall k | 0 <= k < ModisHdrSize ensures b[k] == p[..ModisHdrSize][k] {
      assert p[..ModisHdrSize][k] == p[k];
    }
  }

  lemma Join32(x: int)
    requires 0 <= x < 0x1_0000_0000
    ensures (x / 0x100_0000) * 0x100_0000 + ((x / 0x1_0000) % 0x100) * 0x1_0000
      + ((x / 0x100) % 0x100) * 0x100 + x % 0x100 == x
  {
    var b5, h1 := x % 0x100, x / 0x100;
    var b4, h2 := h1 % 0x100, h1 / 0x100;
    var b3, b2 := h2 % 0x100, h2 / 0x100;
    assert x == ((b2 * 0x100 + b3) * 0x100 + b4) * 0x100 + b5;
    Split32(b2, b3, b4, b5);
  }

  lemma Split32(b2: Byte, b3: Byte, b4: Byte, b5: Byte)
    ensures var x := b2 as int * 0x100_0000 + b3 as int * 0x1_0000 + b4 as int * 0x100 + b5;
      x / 0x100_0000 == b2 && (x / 0x1_0000) % 0x100 == b3 && (x / 0x100) % 0x100 == b4
      && x % 0x100 == b5
  {
    var x := b2 as int * 0x100_0000 + b3 as int * 0x1_0000 + b4 as int * 0x100 + b5;
    DivUnique(x, b2, b3 as int * 0x1_0000 + b4 as int * 0x100 + b5, 0x100_0000);
    DivUnique(x, b2 as int * 0x100 + b3, b4 as int * 0x100 + b5, 0x1_0000);
    DivUnique(b2 as int * 0x100 + b3, b2, b3, 0x100);
    DivUnique(x, b2 as int * 0x1_0000 + b3 as int * 0x100 + b4, b5, 0x100);
    DivUnique(b2 as int * 0x1_0000 + b3 as int * 0x100 + b4, b2 as int * 0x100 + b3, b4, 0x100);
  }

  lemma Flags8(x: int, a: int, t: int, s: int, c: int)
    requires 0 <= a < 2 && 0 <= t < 8 && 0 <= s < 8 && 0 <= c < 2
    requires x == a * 128 + t * 16 + s * 2 + c
    ensures x / 128 == a && (x / 16) % 8 == t && (x / 2) % 8 == s && x % 2 == c
  {
    DivUnique(x, a, t * 16 + s * 2 + c, 128);
    DivUnique(x, a * 8 + t, s * 2 + c, 16);
    DivUnique(a * 8 + t, a, t, 8);
    DivUnique(x, a * 64 + t * 8 + s, c, 2);
    DivUnique(a * 64 + t * 8 + s, a * 8 + t, s, 8);
  }

  lemma Rejoin8(x: Byte)
    ensures (x / 128) * 128 + ((x / 16) % 8) * 16 + ((x / 2) % 8) * 2 + x % 2 == x
    ensures (x / 4) * 4 + ((x / 2) % 2) * 2 + x % 2 == x
  {
    assert x == (x / 2) * 2 + x % 2;
    var h := x / 2;
    assert h == (h / 8) * 8 + h % 8;
    assert h / 8 == x / 16;
    assert x / 16 == (x / 128) * 8 + (x / 16) % 8;
    assert h == (h / 2) * 2 + h % 2;
    assert h / 2 == x / 4;
  }

  lemma Rejoin9and10(x: Byte, y: Byte, z: Byte)
    ensures var src2 := (x as int % 128) * 16 + y / 16;
      var conf := (y as int % 16) * 64 + z / 4;
      (x / 128) * 128 + src2 / 16 == x && (src2 % 16) * 16 + conf / 64 == y
      && conf % 64 == z / 4
  {
    var src2 := (x as int % 128) * 16 + y / 16;
    var conf := (y as int % 16) * 64 + z / 4;
    DivUnique(src2, x as int % 128, y as int / 16, 16);
    DivUnique(conf, y as int % 16, z as int / 4, 64);
  }

  lemma Split7x4(x: int, y: int, hi: int, mid: int, lo: int)
    requires 0 <= hi < 2 && 0 <= mid < 2048 && 0 <= lo < 16
    requires x == hi * 128 + mid / 16 && y == (mid % 16) * 16 + lo
    ensures x / 128 == hi && (x % 128) * 16 + y / 16 == mid
  {
    DivUnique(x, hi, mid / 16, 128);
    DivUnique(y, mid % 16, lo, 16);
  }

  lemma Split4x6(x: int, y: int, hi: int, mid: int, lo: int)
    requires 0 <= hi < 16 && 0 <= mid < 1024 && 0 <= lo < 4
    requires x == hi * 16 + mid / 64 && y == (mid % 64) * 4 + lo
    ensures (x % 16) * 64 + y / 4 == mid && (y / 2) % 2 == lo / 2 && y % 2 == lo % 2
  {
    DivUnique(x, hi, mid / 64, 16);
    DivUnique(y, mid % 64, lo, 4);
    DivUnique(y, (mid % 64) * 2 + lo / 2, lo % 2, 2);
    DivUnique((mid % 64) * 2 + lo / 2, mid % 64, lo / 2, 2);
  }
}
