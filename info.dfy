// pdsinfo's main loop as a class over its state: one pass per primary header, updating the per-APID records, the
// first/last packet time, the missing seconds and the day/night/engineering tallies.

module Info {
  import opened Common
  import opened Ccsds
  import opened Modis
  import opened Checksum
  import opened SeqCount
  import opened ApidList
  import opened InfoSpec
  import opened InfoState
  import opened InfoScan

  /** The nested comparisons that lower (firstday, firstms, firstmics): they keep the
      lexicographically earliest time. */
  method LowerFirst(first: Timestamp, t: Timestamp) returns (f: Timestamp)
    ensures f == if TsLess(t, first) then t else first
  {
    f := first;
    if t.days < first.days {
      f := t;
    } else if t.days == first.days {
      if t.millisec < first.millisec {
        f := t;
      } else if t.millisec == first.millisec {
        if t.microsec < first.microsec {
          f := t;
        }
      }
    }
  }

  /** The nested comparisons that raise (lastday, lastms, lastmics): they keep the
      lexicographically latest time. */
  method RaiseLast(last: Timestamp, t: Timestamp) returns (l: Timestamp)
    ensures l == if TsLess(last, t) then t else last
  {
    l := last;
    if t.days > last.days {
      l := t;
    } else if t.days == last.days {
      if t.millisec > last.millisec {
        l := t;
      } else if t.millisec == last.millisec {
        if t.microsec > last.microsec {
          l := t;
        }
      }
    }
  }

  class PdsInfo {
    /** The input file. */
    const data: seq<Byte>
    /** Read position in the input file. */
    var pos: nat
    /** `hdr`: the primary header structure; on a version error only its version changes. */
    var hdr: PriHdr
    /** `apidlist`, in ascending APID order, and `apidinfo` as an index (-1 for NULL). */
    var apidList: seq<ApidInfo>
    var current: int
    var first: Timestamp
    var last: Timestamp
    var prev: Timestamp
    var missingSecs: int
    var dayPkts1: nat
    var dayPkts2: nat
    var nightPkts1: nat
    var nightPkts2: nat
    var engPkts1: nat
    var engPkts2: nat
    var retValue: int
    /** Every header counted so far, and every MODIS secondary header decoded so far. */
    ghost var sightings: seq<Sighting>
    ghost var modis: seq<ModisHdr>

    ghost predicate RecordsValid()
      reads this`apidList, this`current, this`sightings
    {
      Recorded(apidList, current, sightings)
    }

    ghost predicate TimesValid()
      reads this`modis, this`first, this`last, this`prev, this`missingSecs
    {
      TimesAgree(modis, first, last, prev, missingSecs)
    }

    ghost predicate TalliesValid()
      reads this`modis, this`dayPkts1, this`dayPkts2, this`nightPkts1, this`nightPkts2
      reads this`engPkts1, this`engPkts2
    {
      TalliesAgree(modis, dayPkts1, nightPkts1, engPkts1, dayPkts2, nightPkts2, engPkts2)
    }

    ghost predicate Valid()
      reads this
    {
      pos <= |data| && RecordsValid() && TimesValid() && TalliesValid()
    }

    /** The state before the loop; `uninitialised` stands for the header structure's
        contents before anything has been decoded into it. */
    constructor (input: seq<Byte>, uninitialised: PriHdr)
      ensures Valid()
      ensures data == input && pos == 0 && hdr == uninitialised && retValue == 0
      ensures apidList == [] && current == -1 && sightings == [] && modis == []
    {
      data := input;
      pos := 0;
      hdr := uninitialised;
      apidList := [];
      current := -1;
      first, last, prev := FirstSentinel, LastSentinel, Timestamp(0, 0, 0);
      missingSecs := 0;
      dayPkts1, dayPkts2, nightPkts1, nightPkts2, engPkts1, engPkts2 := 0, 0, 0, 0, 0, 0;
      retValue := 0;
      sightings := [];
      modis := [];
    }

    /**
     * The APID bookkeeping for `hdr`: find (or allocate and insert) its record, count the
     * packet, add the gap since the previous packet of that APID, store its count.
     */
    method CountHeader()
      requires pos <= |data| && RecordsValid()
      modifies this`apidList, this`current, this`sightings
      ensures RecordsValid()
      ensures sightings == old(sightings) + [Sighting(hdr.apid, hdr.pktCount, false)]
    {
      if current == -1 || apidList[current].apid != hdr.apid {
        var idx := FindApidInfo(apidList, hdr.apid);
        if idx == -1 {
          var list, at := AddApidInfo(apidList, AllocApidInfo(hdr.apid));
          InsertUnseen(apidList, sightings, hdr.apid, at, list);
          apidList := list;
          idx := at;
        }
        current := idx;
      }
      var s := Sighting(hdr.apid, hdr.pktCount, false);
      var rec := apidList[current];
      assert Summarises(rec, sightings);
      var missing := if rec.lastPktCount != -1 then Missing(hdr.pktCount, rec.lastPktCount) else 0;
      var rec' := rec.(count := rec.count + 1, missing := rec.missing + missing,
                       lastPktCount := hdr.pktCount);
      CountInto(apidList, sightings, current, s, rec');
      apidList := apidList[current := rec'];
      sightings := sightings + [s];
    }

    /** The checksum of the packet just counted was wrong: `apidinfo->invalid` goes up. */
    method MarkInvalid()
      requires RecordsValid() && current != -1 && !sightings[|sightings| - 1].invalid
      modifies this`apidList, this`sightings
      ensures RecordsValid()
      ensures var n := |old(sightings)|;
        sightings == old(sightings)[..n - 1] + [old(sightings)[n - 1].(invalid := true)]
    {
      var rec' := apidList[current].(invalid := apidList[current].invalid + 1);
      MarkInto(apidList, sightings, current, rec');
      apidList := apidList[current := rec'];
      sightings := sightings[..|sightings| - 1] + [sightings[|sightings| - 1].(invalid := true)];
    }

    /** First/last time, missing seconds and tallies for one decoded MODIS header. */
    method RecordModis(m: ModisHdr)
      requires TimesValid() && TalliesValid()
      modifies this`first, this`last, this`prev, this`missingSecs, this`modis
      modifies this`dayPkts1, this`dayPkts2, this`nightPkts1, this`nightPkts2
      modifies this`engPkts1, this`engPkts2
      ensures TimesValid() && TalliesValid()
      ensures modis == old(modis) + [m]
    {
      ghost var ms := modis + [m];
      assert ms[..|ms| - 1] == modis;
      RecordTime(m);
      RecordType(m);
      modis := ms;
    }

    /** The time comparisons and the missing-seconds sum for one more MODIS header. */
    method RecordTime(m: ModisHdr)
      requires TimesAgree(modis, first, last, prev, missingSecs)
      modifies this`first, this`last, this`prev, this`missingSecs
      ensures TimesAgree(modis + [m], first, last, prev, missingSecs)
    {
      ghost var ms := modis + [m];
      assert ms[..|ms| - 1] == modis;
      var t := TimeOf(m);
      first := LowerFirst(first, t);
      last := RaiseLast(last, t);
      if prev.days != 0 {
        missingSecs := missingSecs + TruncDiv(AbsMs(t) - AbsMs(prev), 1000);
      }
      prev := t;
    }

    /** The day/night/engineering tallies for one more MODIS header. */
    method RecordType(m: ModisHdr)
      requires TalliesAgree(modis, dayPkts1, nightPkts1, engPkts1, dayPkts2, nightPkts2, engPkts2)
      modifies this`dayPkts1, this`dayPkts2, this`nightPkts1, this`nightPkts2
      modifies this`engPkts1, this`engPkts2
      ensures TalliesAgree(modis + [m], dayPkts1, nightPkts1, engPkts1, dayPkts2, nightPkts2, engPkts2)
    {
      ghost var ms := modis + [m];
      assert ms[..|ms| - 1] == modis;
      if m.src1 == 0 {
        match m.pktType
        case 0 => dayPkts1 := dayPkts1 + 1;
        case 1 => nightPkts1 := nightPkts1 + 1;
        case 2 => engPkts1 := engPkts1 + 1;
        case 4 => engPkts1 := engPkts1 + 1;
        case _ =>
      } else {
        match m.pktType
        case 0 => dayPkts2 := dayPkts2 + 1;
        case 1 => nightPkts2 := nightPkts2 + 1;
        case 2 => engPkts2 := engPkts2 + 1;
        case 4 => engPkts2 := engPkts2 + 1;
        case _ =>
      }
    }

    /** One pass of the main loop, in the C order of reads, decodes and updates. */
    method Step() returns (p: Progress, ghost r: Pass)
      requires Valid()
      modifies this
      ensures Valid()
      ensures r == ReadPass(data, old(pos), old(hdr))
      ensures && pos == r.pos && hdr == r.hdr && p == r.progress
        && retValue == (if r.failed then ReadFailure else old(retValue))
        && sightings == old(sightings) + PassSightings(r)
        && modis == old(modis) + PassModis(r)
    {
      r := ReadPass(data, pos, hdr);
      if |data| - pos < PriHdrSize {
        pos := |data|;
        return Finished, r;
      }
      var counted := ReadHeader();
      if !counted {
        return Continue, r;
      }
      p := CountAndRead();
    }

    /**
     * The header read and decode of a pass. A version error skips the stale packet length and
     * ends the pass; when that skip cannot be read, retvalue becomes 5 and the stale header
     * goes on to be counted.
     */
    method ReadHeader() returns (counted: bool)
      requires PriHdrSize <= |data| - pos
      modifies this`pos, this`hdr, this`retValue
      ensures pos <= |data|
      ensures !counted ==> (ReadPass(data, old(pos), old(hdr)) == Pass(pos, hdr, false, [], Continue, false)
        && retValue == old(retValue))
      ensures counted ==> (ReadPass(data, old(pos), old(hdr)) == ReadPayload(data, pos, hdr)
        && (retValue == old(retValue)
            || (retValue == ReadFailure && |data| - pos < PayloadLength(hdr))))
    {
      var buf := data[pos..pos + PriHdrSize];
      ReadPassHeader(data, pos, hdr);
      pos := pos + PriHdrSize;
      match DecodePriHdr(buf) {
        case Err(v) =>
          hdr := hdr.(version := v);
          if |data| - pos >= PayloadLength(hdr) {
            pos := pos + PayloadLength(hdr);
            return false;
          }
          pos := |data|;
          retValue := ReadFailure;
        case Ok(h) =>
          hdr := h;
      }
      return true;
    }

    /** From the APID bookkeeping to the end of the pass, for the header in `hdr`. */
    method CountAndRead() returns (p: Progress)
      requires Valid()
      modifies this`pos, this`retValue, this`apidList, this`current, this`sightings
      modifies this`first, this`last, this`prev, this`missingSecs, this`modis
      modifies this`dayPkts1, this`dayPkts2, this`nightPkts1, this`nightPkts2
      modifies this`engPkts1, this`engPkts2
      ensures Valid()
      ensures var r := ReadPayload(data, old(pos), old(hdr));
        && pos == r.pos && p == r.progress
        && retValue == (if r.failed then ReadFailure else old(retValue))
        && sightings == old(sightings) + PassSightings(r)
        && modis == old(modis) + PassModis(r)
    {
      ghost var r := ReadPayload(data, pos, hdr);
      PayloadPass(r);
      ghost var s0 := sightings;
      CountHeader();
      assert sightings[..|s0|] == s0;
      p := ReadRest(r);
    }

    /** The payload read and, for a MODIS packet, its checksum test, times and tallies. */
    method ReadRest(ghost r: Pass) returns (p: Progress)
      requires Valid() && r == ReadPayload(data, pos, hdr)
      requires |sightings| > 0 && sightings[|sightings| - 1] == Sighting(hdr.apid, hdr.pktCount, false)
      modifies this`pos, this`retValue, this`apidList, this`sightings
      modifies this`first, this`last, this`prev, this`missingSecs, this`modis
      modifies this`dayPkts1, this`dayPkts2, this`nightPkts1, this`nightPkts2
      modifies this`engPkts1, this`engPkts2
      ensures Valid()
      ensures && pos == r.pos && p == r.progress
        && retValue == (if r.failed then ReadFailure else old(retValue))
        && sightings == old(sightings)[..|old(sightings)| - 1] + [Sight(hdr, r.payload)]
        && modis == old(modis) + (if p == Continue && IsModisApid(hdr.apid)
                                  then [DecodeModisHdr(r.payload)] else [])
    {
      var payload;
      p, payload := ReadData();
      ReadModis(p == Continue && IsModisApid(hdr.apid), payload);
    }

    /**
     * The payload read: when fewer than pkt_length + 1 bytes are left the read fails,
     * retvalue becomes 5 and the loop ends.
     */
    method ReadData() returns (p: Progress, payload: seq<Byte>)
      requires pos <= |data|
      modifies this`pos, this`retValue
      ensures var r := ReadPayload(data, old(pos), hdr);
        && pos == r.pos && p == r.progress && payload == r.payload
        && retValue == (if r.failed then ReadFailure else old(retValue))
    {
      var len := PayloadLength(hdr);
      if |data| - pos < len {
        pos := |data|;
        retValue := ReadFailure;
        return Finished, [];
      }
      payload := data[pos..pos + len];
      pos := pos + len;
      p := if IsModisApid(hdr.apid) && len < ModisHdrSize then ShortModisPayload else Continue;
    }

    /** The MODIS part of a pass, for a MODIS packet whose payload was read: decode,
        checksum test, then times and tallies. */
    method ReadModis(modisPacket: bool, payload: seq<Byte>)
      requires RecordsValid() && TimesValid() && TalliesValid()
      requires modisPacket <==> IsModisApid(hdr.apid) && |payload| >= ModisHdrSize
      requires |sightings| > 0 && sightings[|sightings| - 1] == Sighting(hdr.apid, hdr.pktCount, false)
      modifies this`apidList, this`sightings, this`first, this`last, this`prev, this`missingSecs
      modifies this`modis, this`dayPkts1, this`dayPkts2, this`nightPkts1, this`nightPkts2
      modifies this`engPkts1, this`engPkts2
      ensures RecordsValid() && TimesValid() && TalliesValid()
      ensures var n := |old(sightings)|;
        sightings == old(sightings)[..n - 1] + [Sight(hdr, payload)]
      ensures modis == old(modis) + if modisPacket then [DecodeModisHdr(payload)] else []
    {
      if !modisPacket {
        UncheckedSight(hdr, payload);
        DropLast(sightings);
        return;
      }
      var m := DecodeModisHdr(payload);
      CheckPayload(payload, m.checksum);
      RecordModis(m);
    }

    /** The checksum test of a MODIS packet against the checksum field it carries. */
    method CheckPayload(payload: seq<Byte>, field: int)
      requires RecordsValid() && IsModisApid(hdr.apid) && |payload| >= ModisHdrSize
      requires field == ChecksumField(payload)
      requires |sightings| > 0 && sightings[|sightings| - 1] == Sighting(hdr.apid, hdr.pktCount, false)
      modifies this`apidList, this`sightings
      ensures RecordsValid()
      ensures var n := |old(sightings)|;
        sightings == old(sightings)[..n - 1] + [Sight(hdr, payload)]
    {
      var chksum := ComputePayloadChecksum(payload);
      ghost var s := sightings;
      if chksum != field {
        MarkInvalid();
      } else {
        assert s == s[..|s| - 1] + [s[|s| - 1]];
      }
    }

    /**
     * The whole main loop and the exit code: 5 when no packet header was counted, otherwise
     * retvalue (5 after a failed read, else 0).
     */
    method Run() returns (o: Outcome)
      requires Valid()
      modifies this
      ensures Valid()
      ensures var t := Scan(data, old(pos), old(hdr));
        && sightings == old(sightings) + t.sightings
        && modis == old(modis) + t.modis
        && retValue == (if t.failed then ReadFailure else old(retValue))
        && (!t.undefined ==> pos == |data|)
        && o == if t.undefined then Undefined
                else if |sightings| == 0 then Exit(ReadFailure)
                else Exit(retValue)
    {
      var p := Loop();
      if p == ShortModisPayload {
        return Undefined;
      }
      if current == -1 {
        return Exit(ReadFailure);
      }
      return Exit(retValue);
    }

    /** The passes of the main loop, until one does not continue. */
    method Loop() returns (p: Progress)
      requires Valid()
      modifies this
      ensures Valid()
      ensures var t := Scan(data, old(pos), old(hdr));
        && sightings == old(sightings) + t.sightings
        && modis == old(modis) + t.modis
        && retValue == (if t.failed then ReadFailure else old(retValue))
        && (p == ShortModisPayload <==> t.undefined)
        && (!t.undefined ==> pos == |data|)
    {
      ghost var t := Scan(data, pos, hdr);
      // The final contents of the two lists: what they hold now, then all the scan reads.
      ghost var goal := Scanned(sightings + t.sightings, modis + t.modis, t.failed, t.undefined);
      ghost var ret0, failed := retValue, false;
      p := Continue;
      while p == Continue
        invariant Valid()
        invariant retValue == if failed then ReadFailure else ret0
        invariant p == Continue ==> Pending(goal, sightings, modis, data, pos, hdr) && !failed
        invariant p != Continue ==> goal == Scanned(sightings, modis, failed, p == ShortModisPayload)
        invariant p == Finished ==> pos == |data|
        decreases |data| - pos, if p == Continue then 1 else 0
      {
        ghost var pos0, hdr0, s0, m0 := pos, hdr, sightings, modis;
        ghost var r;
        p, r := Step();
        PendingStep(goal, s0, m0, data, pos0, hdr0, r);
        failed := r.failed;
      }
    }
  }
}
