// The 6-byte CCSDS Space Packet primary header (CCSDS 133.0-B-1, section 4.1.2) as both
// tools decode it with DecodePriHdr.

module Ccsds {
  import opened Common

  /** PRI_HDR_SIZE */
  const PriHdrSize := 6

  /**
   * The fields of `struct pri_hdr`, each within the bit width it has in the six bytes;
   * `pktLength` is the payload length minus one.
   */
  datatype PriHdr = PriHdr(
    version: U3,
    pktType: Bit,
    secHdrFlag: Bit,
    apid: U11,
    seqFlags: U2,
    pktCount: U14,
    pktLength: U16)

  /** Number of payload bytes that follow a header: the stored length plus one. */
  function PayloadLength(h: PriHdr): int {
    h.pktLength + 1
  }

  /** DATA_SIZE, the size of the payload buffers. */
  const DataSize := 100000

  /** The payload of every decodable header fits the buffer: the overflow exits are dead code. */
  lemma PayloadFitsBuffer(h: PriHdr)
    ensures 1 <= PayloadLength(h) <= 65536 < DataSize
  {
  }

  /**
   * DecodePriHdr: a nonzero 3-bit version yields Err(version); the C code then returns -1
   * having written only the version field. Otherwise every field is sliced out of the bytes.
   */
  function DecodePriHdr(buf: seq<Byte>): (r: Result<PriHdr, U3>)
    requires |buf| == PriHdrSize
    ensures r.Err? <==> buf[0] >= 32
    ensures r.Err? ==> r.error == buf[0] / 32 > 0
    ensures r.Ok? ==> r.value.version == 0
    ensures r.Ok? ==> PayloadLength(r.value) == buf[4] as int * 256 + buf[5] + 1
  {
    var version := buf[0] / 32;
    if version != 0 then
      Err(version)
    else
      Ok(PriHdr(
        version,
        (buf[0] / 16) % 2,
        (buf[0] / 8) % 2,
        (buf[0] as int % 8) * 256 + buf[1],
        buf[2] / 64,
        (buf[2] as int % 64) * 256 + buf[3],
        buf[4] as int * 256 + buf[5]))
  }

  /** Packs the fields back into six bytes, most significant bit first. */
  function EncodePriHdr(h: PriHdr): (buf: seq<Byte>)
    ensures |buf| == PriHdrSize
  {
    [ h.version * 32 + h.pktType * 16 + h.secHdrFlag * 8 + h.apid / 256,
      h.apid % 256,
      h.seqFlags * 64 + h.pktCount / 256,
      h.pktCount % 256,
      h.pktLength / 256,
      h.pktLength % 256 ]
  }

  /** Decoding an encoded header gives the header back, or the version error for version > 0. */
  lemma DecodeEncode(h: PriHdr)
    ensures DecodePriHdr(EncodePriHdr(h)) == if h.version == 0 then Ok(h) else Err(h.version)
  {
    var b := EncodePriHdr(h);
    assert b[0] / 32 == h.version;
    if h.version == 0 {
      assert (b[0] / 16) % 2 == h.pktType;
      assert (b[0] / 8) % 2 == h.secHdrFlag;
      assert (b[0] as int % 8) * 256 + b[1] == h.apid;
      assert b[2] / 64 == h.seqFlags;
      assert (b[2] as int % 64) * 256 + b[3] == h.pktCount;
    }
  }

  /** A successful decode loses nothing: re-packing the fields reproduces the six bytes. */
  lemma EncodeDecode(buf: seq<Byte>)
    requires |buf| == PriHdrSize && DecodePriHdr(buf).Ok?
    ensures EncodePriHdr(DecodePriHdr(buf).value) == buf
  {
    var h := DecodePriHdr(buf).value;
    var b := EncodePriHdr(h);
    assert b[0] == buf[0];
    assert b[2] == buf[2];
  }
}
