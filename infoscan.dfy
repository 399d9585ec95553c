// What pdsinfo's main loop reads, pass by pass, as a function of the input bytes: which
// headers it counts, which MODIS headers it decodes, and how it stops.

module InfoScan {
  import opened Common
  import opened Ccsds
  import opened Modis
  import opened Checksum
  import opened InfoSpec

  /** What one pass of the loop leads to. ShortModisPayload stands for the case the C code
      does not guard: a MODIS APID whose payload cannot hold the instrument header, on which
      it decodes bytes that are not the packet's. */
  datatype Progress = Continue | Finished | ShortModisPayload

  /** The header counted for a pass, with its payload (empty when the read failed): invalid
      when it is a MODIS packet whose computed checksum differs from its checksum field. */
  function Sight(h: PriHdr, payload: seq<Byte>): Sighting {
    var bad := IsModisApid(h.apid) && |payload| >= ModisHdrSize
      && PayloadChecksum(payload) != ChecksumField(payload);
    Sighting(h.apid, h.pktCount, bad)
  }

  /**
   * What one pass of the main loop reads: the new read position and header structure,
   * whether a header was counted (and with which payload), how the loop goes on, and
   * whether a read failed (retvalue 5).
   */
  datatype Pass = Pass(pos: nat, hdr: PriHdr, counted: bool, payload: seq<Byte>,
                       progress: Progress, failed: bool)

  /**
   * One pass from `pos` with header structure `hdr`. A short header read ends the input. A
   * version error changes only the version and skips the stale packet length; when that
   * skip cannot be read, the `break` leaves only the switch, so the stale header is counted
   * and the payload read that follows fails.
   */
  function ReadPass(data: seq<Byte>, pos: nat, hdr: PriHdr): (r: Pass)
    requires pos <= |data|
    ensures pos <= r.pos <= |data|
    ensures r.progress == Continue ==> r.pos > pos
    ensures r.progress != Continue ==> (r.counted
      || (r.pos == |data| && |data| - pos < PriHdrSize && r.hdr == hdr && !r.failed))
    ensures r.counted ==> |r.payload| <= r.pos && r == ReadPayload(data, r.pos - |r.payload|, r.hdr)
  {
    if |data| - pos < PriHdrSize then Pass(|data|, hdr, false, [], Finished, false)
    else
      var at := pos + PriHdrSize;
      match DecodePriHdr(data[pos..at])
      case Err(v) =>
        var h := hdr.(version := v);
        if |data| - at >= PayloadLength(h) then Pass(at + PayloadLength(h), h, false, [], Continue, false)
        else ReadPayload(data, |data|, h)
      case Ok(h) => ReadPayload(data, at, h)
  }

  /**
   * The rest of a pass once the header is known: the header is counted, then its payload is
   * read; a read that cannot be completed ends the loop with retvalue 5.
   */
  function ReadPayload(data: seq<Byte>, at: nat, h: PriHdr): (r: Pass)
    requires at <= |data|
    ensures r.counted && r.hdr == h && at <= r.pos <= |data|
    ensures r.failed <==> |data| - at < PayloadLength(h)
    ensures r.failed ==> r.progress == Finished && r.payload == [] && r.pos == |data|
    ensures !r.failed ==> (|r.payload| == PayloadLength(h) && r.pos == at + |r.payload|
      && r.payload == data[at..r.pos])
    ensures r.progress == Continue <==> !r.failed && !(IsModisApid(h.apid) && |r.payload| < ModisHdrSize)
    ensures r.progress == ShortModisPayload <==>
      !r.failed && IsModisApid(h.apid) && |r.payload| < ModisHdrSize
  {
    var len := PayloadLength(h);
    if |data| - at < len then Pass(|data|, h, true, [], Finished, true)
    else
      var payload := data[at..at + len];
      if IsModisApid(h.apid) && len < ModisHdrSize then
        Pass(at + len, h, true, payload, ShortModisPayload, false)
      else Pass(at + len, h, true, payload, Continue, false)
  }

  /** A header whose payload is not checksummed is counted as valid. */
  lemma UncheckedSight(h: PriHdr, payload: seq<Byte>)
    requires !IsModisApid(h.apid) || |payload| < ModisHdrSize
    ensures Sight(h, payload) == Sighting(h.apid, h.pktCount, false)
  {
  }

  /** A pass once a whole header was read: a skipped stale packet, or a counted header. */
  lemma ReadPassHeader(data: seq<Byte>, pos: nat, hdr: PriHdr)
    requires |data| - pos >= PriHdrSize
    ensures var at := pos + PriHdrSize;
      match DecodePriHdr(data[pos..at])
      case Err(v) =>
        var h := hdr.(version := v);
        ReadPass(data, pos, hdr) ==
          if |data| - at >= PayloadLength(h) then Pass(at + PayloadLength(h), h, false, [], Continue, false)
          else ReadPayload(data, |data|, h)
      case Ok(h) => ReadPass(data, pos, hdr) == ReadPayload(data, at, h)
  {
  }

  /** The headers a pass counts, and the MODIS headers it decodes. */
  function PassSightings(r: Pass): seq<Sighting> {
    if r.counted then [Sight(r.hdr, r.payload)] else []
  }

  function PassModis(r: Pass): seq<ModisHdr>
    requires r.counted && r.progress == Continue && IsModisApid(r.hdr.apid) ==>
      |r.payload| >= ModisHdrSize
  {
    if r.counted && r.progress == Continue && IsModisApid(r.hdr.apid) then
      [DecodeModisHdr(r.payload)]
    else []
  }

  /** What a pass that read a header counts and decodes, once its payload is known. */
  lemma PayloadPass(r: Pass)
    requires r.counted && (r.progress == Continue && IsModisApid(r.hdr.apid) ==> |r.payload| >= ModisHdrSize)
    ensures PassSightings(r) == [Sight(r.hdr, r.payload)]
    ensures PassModis(r) == if r.progress == Continue && IsModisApid(r.hdr.apid)
      then [DecodeModisHdr(r.payload)] else []
  {
  }

  /** Everything the main loop reads from `pos` to its end. */
  datatype Scanned = Scanned(sightings: seq<Sighting>, modis: seq<ModisHdr>, failed: bool,
                             undefined: bool)

  function Scan(data: seq<Byte>, pos: nat, hdr: PriHdr): (t: Scanned)
    requires pos <= |data|
    ensures t.failed ==> !t.undefined
    ensures |t.modis| <= |t.sightings|
    decreases |data| - pos
  {
    var r := ReadPass(data, pos, hdr);
    if r.progress == Continue then
      var rest := Scan(data, r.pos, r.hdr);
      Scanned(PassSightings(r) + rest.sightings, PassModis(r) + rest.modis, rest.failed,
              rest.undefined)
    else Scanned(PassSightings(r), PassModis(r), r.failed, r.progress == ShortModisPayload)
  }

  /**
   * The main loop's bookkeeping: the whole scan `t` is what was already read (`doneS`,
   * `doneM`) followed by the scan of the rest from `pos`.
   */
  ghost predicate Pending(t: Scanned, doneS: seq<Sighting>, doneM: seq<ModisHdr>,
                          data: seq<Byte>, pos: nat, hdr: PriHdr)
  {
    pos <= |data|
    && var rest := Scan(data, pos, hdr);
    t == Scanned(doneS + rest.sightings, doneM + rest.modis, rest.failed, rest.undefined)
  }

  /** One pass moves its headers from the rest of the scan to what was read. */
  lemma PendingStep(t: Scanned, doneS: seq<Sighting>, doneM: seq<ModisHdr>,
                    data: seq<Byte>, pos: nat, hdr: PriHdr, r: Pass)
    requires Pending(t, doneS, doneM, data, pos, hdr) && r == ReadPass(data, pos, hdr)
    ensures var s, m := doneS + PassSightings(r), doneM + PassModis(r);
      if r.progress == Continue then Pending(t, s, m, data, r.pos, r.hdr)
      else t == Scanned(s, m, r.failed, r.progress == ShortModisPayload)
    ensures r.progress == Continue ==> !r.failed && pos < r.pos <= |data|
    ensures r.progress == Finished ==> r.pos == |data|
  {
    if r.progress == Continue {
      var rest := Scan(data, r.pos, r.hdr);
      AppendAssoc(doneS, PassSightings(r), rest.sightings);
      AppendAssoc(doneM, PassModis(r), rest.modis);
    }
  }
}
