// What pdsinfo's statistics mean, stated over the history of what it has read: the headers
// it counted (per APID) and the MODIS secondary headers it decoded.

module InfoSpec {
  import opened Common
  import opened Modis
  import opened SeqCount

  /** One counted primary header: its APID, its sequence count, and whether the tool found
      its checksum wrong. */
  datatype Sighting = Sighting(apid: int, pktCount: int, invalid: bool)

  predicate CountsInRange(h: seq<Sighting>) {
    forall k :: 0 <= k < |h| ==> IsCount(h[k].pktCount)
  }

  /** Headers of this APID. */
  function Occurrences(h: seq<Sighting>, apid: int): nat {
    if |h| == 0 then 0
    else Occurrences(h[..|h| - 1], apid) + (if h[|h| - 1].apid == apid then 1 else 0)
  }

  /** Headers of this APID marked invalid. */
  function InvalidCount(h: seq<Sighting>, apid: int): nat {
    if |h| == 0 then 0
    else
      var s := h[|h| - 1];
      InvalidCount(h[..|h| - 1], apid) + (if s.apid == apid && s.invalid then 1 else 0)
  }

  /** Sequence count of the latest header of this APID, or -1 when there is none. */
  function LastCount(h: seq<Sighting>, apid: int): (c: int)
    requires CountsInRange(h)
    ensures c == -1 || IsCount(c)
    ensures c == -1 <==> Occurrences(h, apid) == 0
  {
    if |h| == 0 then -1
    else if h[|h| - 1].apid == apid then h[|h| - 1].pktCount
    else LastCount(h[..|h| - 1], apid)
  }

  /** Sequence count of the earliest header of this APID, or -1 when there is none. */
  function FirstCount(h: seq<Sighting>, apid: int): (c: int)
    requires CountsInRange(h)
    ensures c == -1 || IsCount(c)
    ensures c == -1 <==> Occurrences(h, apid) == 0
  {
    if |h| == 0 then -1
    else if Occurrences(h[..|h| - 1], apid) == 0 then
      (if h[|h| - 1].apid == apid then h[|h| - 1].pktCount else -1)
    else FirstCount(h[..|h| - 1], apid)
  }

  /** The gaps between consecutive headers of this APID, added up. */
  function MissingTotal(h: seq<Sighting>, apid: int): int
    requires CountsInRange(h)
  {
    if |h| == 0 then 0
    else
      var p, s := h[..|h| - 1], h[|h| - 1];
      MissingTotal(p, apid)
        + (if s.apid == apid && LastCount(p, apid) != -1 then Missing(s.pktCount, LastCount(p, apid))
           else 0)
  }

  /** How each history function grows when one more header is counted. */
  lemma AppendSighting(h: seq<Sighting>, s: Sighting, apid: int)
    requires CountsInRange(h) && IsCount(s.pktCount)
    ensures CountsInRange(h + [s])
    ensures Occurrences(h + [s], apid) == Occurrences(h, apid) + (if s.apid == apid then 1 else 0)
    ensures InvalidCount(h + [s], apid)
      == InvalidCount(h, apid) + (if s.apid == apid && s.invalid then 1 else 0)
    ensures LastCount(h + [s], apid) == if s.apid == apid then s.pktCount else LastCount(h, apid)
    ensures MissingTotal(h + [s], apid) == MissingTotal(h, apid)
      + (if s.apid == apid && LastCount(h, apid) != -1 then Missing(s.pktCount, LastCount(h, apid))
         else 0)
  {
    assert (h + [s])[..|h|] == h;
  }

  /** Marking the latest header invalid changes only the invalid count of its APID. */
  lemma MarkLastInvalid(h: seq<Sighting>, apid: int)
    requires CountsInRange(h) && |h| > 0 && !h[|h| - 1].invalid
    ensures var h' := h[..|h| - 1] + [h[|h| - 1].(invalid := true)];
      && CountsInRange(h')
      && Occurrences(h', apid) == Occurrences(h, apid)
      && LastCount(h', apid) == LastCount(h, apid)
      && MissingTotal(h', apid) == MissingTotal(h, apid)
      && InvalidCount(h', apid) == InvalidCount(h, apid) + (if h[|h| - 1].apid == apid then 1 else 0)
  {
    var h' := h[..|h| - 1] + [h[|h| - 1].(invalid := true)];
    assert h'[..|h'| - 1] == h[..|h| - 1];
  }

  /** An APID that never occurred has an empty summary. */
  lemma {:induction false} Unseen(h: seq<Sighting>, apid: int)
    requires CountsInRange(h)
    requires Occurrences(h, apid) == 0
    ensures InvalidCount(h, apid) == 0 && LastCount(h, apid) == -1 && MissingTotal(h, apid) == 0
    ensures forall k :: 0 <= k < |h| ==> h[k].apid != apid
  {
    if |h| > 0 {
      Unseen(h[..|h| - 1], apid);
    }
  }

  /** An APID that appears in no header has not occurred. */
  lemma {:induction false} Absent(h: seq<Sighting>, apid: int)
    requires forall k :: 0 <= k < |h| ==> h[k].apid != apid
    ensures Occurrences(h, apid) == 0
  {
    if |h| > 0 {
      Absent(h[..|h| - 1], apid);
    }
  }

  /** No more headers of an APID are invalid than were counted. */
  lemma {:induction false} InvalidAtMostCount(h: seq<Sighting>, apid: int)
    ensures InvalidCount(h, apid) <= Occurrences(h, apid)
  {
    if |h| > 0 {
      InvalidAtMostCount(h[..|h| - 1], apid);
    }
  }

  /**
   * The gap count accounts for every step of the sequence count: the missing packets plus
   * the packets seen after the first equal, modulo 16384, the advance from the first count
   * to the last.
   */
  lemma {:induction false} MissingAccountsForAdvance(h: seq<Sighting>, apid: int)
    requires CountsInRange(h) && Occurrences(h, apid) > 0
    ensures (MissingTotal(h, apid) + Occurrences(h, apid) - 1
             - (LastCount(h, apid) - FirstCount(h, apid))) % Modulus == 0
  {
    var p, s := h[..|h| - 1], h[|h| - 1];
    assert CountsInRange(p);
    if Occurrences(p, apid) > 0 {
      MissingAccountsForAdvance(p, apid);
      if s.apid == apid {
        var m := Missing(s.pktCount, LastCount(p, apid));
        var x := MissingTotal(p, apid) + Occurrences(p, apid) - 1
          - (LastCount(p, apid) - FirstCount(p, apid));
        var y := m + 1 - (s.pktCount - LastCount(p, apid));
        assert x % Modulus == 0 && y % Modulus == 0;
        assert (x + y) % Modulus == 0;
      }
    } else {
      Unseen(p, apid);
    }
  }

  /** A stream with counts 5 then 7 for one APID misses one packet. */
  lemma OneMissing()
    ensures MissingTotal([Sighting(70, 5, false), Sighting(70, 7, false)], 70) == 1
  {
    var h := [Sighting(70, 5, false), Sighting(70, 7, false)];
    assert h[..1] == [Sighting(70, 5, false)];
    assert h[..1][..0] == [];
  }

  // ---- first and last packet time, missing seconds, packet-type tallies ----

  /** Initial values of firstday/firstms/firstmics and of lastday/lastms/lastmics. */
  const FirstSentinel := Timestamp(1000000, 1000000, 1000000)
  const LastSentinel := Timestamp(0, 0, 0)

  function Times(ms: seq<ModisHdr>): (ts: seq<Timestamp>)
    ensures |ts| == |ms| && forall k :: 0 <= k < |ms| ==> ts[k] == TimeOf(ms[k])
  {
    seq(|ms|, k requires 0 <= k < |ms| => TimeOf(ms[k]))
  }

  /** Milliseconds since the epoch, the quantity `diffms` takes differences of. */
  function AbsMs(t: Timestamp): int {
    t.days * MsPerDay + t.millisec
  }

  /** The seconds added for one packet: skipped while prevday is 0, else diffms / 1000
      truncated toward zero. */
  function SecondsStep(prev: Timestamp, t: Timestamp): int {
    if prev.days != 0 then TruncDiv(AbsMs(t) - AbsMs(prev), 1000) else 0
  }

  /** The first, last and previous packet time and the missing seconds. */
  datatype TimeStats = TimeStats(first: Timestamp, last: Timestamp, prev: Timestamp,
                                 missingSecs: int)

  /** Their values before the loop: prevday is 0 until a MODIS packet was decoded. */
  const NoTimes := TimeStats(FirstSentinel, LastSentinel, Timestamp(0, 0, 0), 0)

  /** One more MODIS packet time: the first time moves to a strictly earlier one, the last
      time to a strictly later one. */
  function NextTimes(ts: TimeStats, t: Timestamp): TimeStats {
    TimeStats(if TsLess(t, ts.first) then t else ts.first,
              if TsLess(ts.last, t) then t else ts.last,
              t, ts.missingSecs + SecondsStep(ts.prev, t))
  }

  /** The time statistics after these MODIS headers. */
  function TimesOf(ms: seq<ModisHdr>): TimeStats {
    if |ms| == 0 then NoTimes else NextTimes(TimesOf(ms[..|ms| - 1]), TimeOf(ms[|ms| - 1]))
  }

  /** After at least one MODIS packet the first time is the earliest time seen. */
  lemma {:induction false} FirstIsEarliest(ms: seq<ModisHdr>)
    requires |ms| > 0
    ensures TimesOf(ms).first in Times(ms)
    ensures forall k :: 0 <= k < |ms| ==> !TsLess(TimeOf(ms[k]), TimesOf(ms).first)
  {
    var p := ms[..|ms| - 1];
    if |p| > 0 {
      FirstIsEarliest(p);
      assert Times(p) <= Times(ms);
    }
  }

  /** After at least one MODIS packet the last time is the latest time seen. */
  lemma {:induction false} LastIsLatest(ms: seq<ModisHdr>)
    requires |ms| > 0
    ensures TimesOf(ms).last in Times(ms)
    ensures forall k :: 0 <= k < |ms| ==> !TsLess(TimesOf(ms).last, TimeOf(ms[k]))
  {
    var p := ms[..|ms| - 1];
    if |p| > 0 {
      LastIsLatest(p);
      assert Times(p) <= Times(ms);
    }
  }

  /**
   * For packets in time order on days other than 0, the missing seconds lie within the span
   * from the first to the last packet, and truncation loses under a second per packet.
   */
  lemma {:induction false} MissingSecsWithinSpan(ms: seq<ModisHdr>)
    requires |ms| > 0
    requires forall k :: 0 <= k < |ms| ==> ms[k].days != 0
    requires forall k :: 0 < k < |ms| ==> AbsMs(TimeOf(ms[k - 1])) <= AbsMs(TimeOf(ms[k]))
    ensures TimesOf(ms).prev == TimeOf(ms[|ms| - 1])
    ensures var secs := TimesOf(ms).missingSecs;
      && 0 <= secs * 1000 <= AbsMs(TimeOf(ms[|ms| - 1])) - AbsMs(TimeOf(ms[0]))
      && AbsMs(TimeOf(ms[|ms| - 1])) - AbsMs(TimeOf(ms[0])) < secs * 1000 + 1000 * |ms|
  {
    var p := ms[..|ms| - 1];
    if |p| > 0 {
      MissingSecsWithinSpan(p);
      var d := AbsMs(TimeOf(ms[|ms| - 1])) - AbsMs(TimeOf(p[|p| - 1]));
      assert SecondsStep(TimesOf(p).prev, TimeOf(ms[|ms| - 1])) == TruncDiv(d, 1000);
    }
  }

  /** Packets of one source group (src1 == 0 is earth view) with a packet type in `types`. */
  function Tally(ms: seq<ModisHdr>, earthView: bool, types: set<int>): nat {
    if |ms| == 0 then 0
    else
      var m := ms[|ms| - 1];
      Tally(ms[..|ms| - 1], earthView, types)
        + (if (m.src1 == 0) == earthView && m.pktType in types then 1 else 0)
  }

  /** Day, night and engineering tallies are disjoint and leave out types 3, 5, 6 and 7. */
  lemma {:induction false} TalliesPartition(ms: seq<ModisHdr>, earthView: bool)
    ensures Tally(ms, earthView, {0}) + Tally(ms, earthView, {1}) + Tally(ms, earthView, {2, 4})
      == Tally(ms, earthView, {0, 1, 2, 4})
    ensures Tally(ms, earthView, {0, 1, 2, 4}) + Tally(ms, earthView, {3, 5, 6, 7})
      <= |ms|
  {
    if |ms| > 0 {
      TalliesPartition(ms[..|ms| - 1], earthView);
    }
  }

  /** daypkts1, nightpkts1, engpkts1 (earth view) and daypkts2, nightpkts2, engpkts2. */
  datatype Tallies = Tallies(day1: nat, night1: nat, eng1: nat, day2: nat, night2: nat, eng2: nat)

  /** The switch on the packet type, for earth-view packets and for the others. */
  function NextTallies(c: Tallies, m: ModisHdr): Tallies {
    if m.src1 == 0 then
      match m.pktType
      case 0 => c.(day1 := c.day1 + 1)
      case 1 => c.(night1 := c.night1 + 1)
      case 2 => c.(eng1 := c.eng1 + 1)
      case 4 => c.(eng1 := c.eng1 + 1)
      case _ => c
    else
      match m.pktType
      case 0 => c.(day2 := c.day2 + 1)
      case 1 => c.(night2 := c.night2 + 1)
      case 2 => c.(eng2 := c.eng2 + 1)
      case 4 => c.(eng2 := c.eng2 + 1)
      case _ => c
  }

  /** The tallies after these MODIS headers. */
  function TalliesOf(ms: seq<ModisHdr>): Tallies {
    if |ms| == 0 then Tallies(0, 0, 0, 0, 0, 0)
    else NextTallies(TalliesOf(ms[..|ms| - 1]), ms[|ms| - 1])
  }

  /** Each tally counts the packets of its source group and packet types. */
  lemma {:induction false} TalliesCount(ms: seq<ModisHdr>)
    ensures TalliesOf(ms) == Tallies(
      Tally(ms, true, {0}), Tally(ms, true, {1}), Tally(ms, true, {2, 4}),
      Tally(ms, false, {0}), Tally(ms, false, {1}), Tally(ms, false, {2, 4}))
  {
    if |ms| > 0 {
      TalliesCount(ms[..|ms| - 1]);
    }
  }
}
