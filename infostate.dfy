// The bookkeeping pdsinfo's main loop keeps, related to the history it has read: the APID
// record list and its summaries, the first/last/previous time, and the packet tallies.

module InfoState {
  import opened Common
  import opened SeqCount
  import opened ApidList
  import opened InfoSpec
  import opened Modis

  /** A record holds the summary of its APID's headers. */
  predicate Summarises(rec: ApidInfo, h: seq<Sighting>)
    requires CountsInRange(h)
  {
    && rec.count == Occurrences(h, rec.apid)
    && rec.invalid == InvalidCount(h, rec.apid)
    && rec.missing == MissingTotal(h, rec.apid)
    && rec.lastPktCount == LastCount(h, rec.apid)
  }

  /** The APID records and the headers they summarise: sorted, one record per APID seen. */
  ghost predicate ListValid(list: seq<ApidInfo>, h: seq<Sighting>) {
    && StrictlySorted(list)
    && CountsInRange(h)
    && (forall k {:trigger Summarises(list[k], h)} :: 0 <= k < |list| ==> Summarises(list[k], h))
    && (forall apid {:trigger Holds(list, apid)} :: !Holds(list, apid) ==> Occurrences(h, apid) == 0)
  }

  /** A fresh record for an APID not yet seen summarises its (empty) history. */
  lemma InsertUnseen(list: seq<ApidInfo>, h: seq<Sighting>, apid: int, at: nat, r: seq<ApidInfo>)
    requires ListValid(list, h) && !Holds(list, apid)
    requires at <= |list| && r == list[..at] + [AllocApidInfo(apid)] + list[at..]
    requires StrictlySorted(r)
    ensures ListValid(r, h) && r[at].apid == apid
  {
    Unseen(h, apid);
    forall k | 0 <= k < |r| ensures Summarises(r[k], h) {
      if k < at {
        assert r[k] == list[k] && Summarises(list[k], h);
      } else if k > at {
        assert r[k] == list[k - 1] && Summarises(list[k - 1], h);
      }
    }
    forall a | !Holds(r, a) ensures Occurrences(h, a) == 0 {
      SplicedHolds(list, at, AllocApidInfo(apid), a);
    }
  }

  /** An APID held by the list is still held once a record is spliced in. */
  lemma SplicedHolds(list: seq<ApidInfo>, at: nat, ai: ApidInfo, a: int)
    requires at <= |list|
    ensures Holds(list, a) ==> Holds(list[..at] + [ai] + list[at..], a)
  {
    if Holds(list, a) {
      var r := list[..at] + [ai] + list[at..];
      var j :| 0 <= j < |list| && list[j].apid == a;
      assert r[if j < at then j else j + 1] == list[j];
    }
  }

  /** An APID held by the list is still held once a record is replaced by one of its APID. */
  lemma UpdatedHolds(list: seq<ApidInfo>, c: nat, rec: ApidInfo, a: int)
    requires c < |list| && rec.apid == list[c].apid
    ensures Holds(list, a) ==> Holds(list[c := rec], a)
  {
    if Holds(list, a) {
      var j :| 0 <= j < |list| && list[j].apid == a;
      assert list[c := rec][j].apid == a;
    }
  }

  /** Counting one more header into the record of its APID keeps every record a summary. */
  lemma CountInto(list: seq<ApidInfo>, h: seq<Sighting>, c: nat, s: Sighting, rec: ApidInfo)
    requires ListValid(list, h) && c < |list| && list[c].apid == s.apid
    requires Summarises(list[c], h) && IsCount(s.pktCount) && !s.invalid
    requires var old_ := list[c];
      rec == old_.(count := old_.count + 1,
                   missing := old_.missing
                     + (if old_.lastPktCount != -1 then Missing(s.pktCount, old_.lastPktCount) else 0),
                   lastPktCount := s.pktCount)
    ensures ListValid(list[c := rec], h + [s])
  {
    var list', h' := list[c := rec], h + [s];
    forall k | 0 <= k < |list'| ensures Summarises(list'[k], h') {
      assert Summarises(list[k], h);
      AppendSighting(h, s, list[k].apid);
    }
    forall a | !Holds(list', a) ensures Occurrences(h', a) == 0 {
      UpdatedHolds(list, c, rec, a);
      assert list'[c].apid == s.apid;
      AppendSighting(h, s, a);
    }
    assert forall i, j :: 0 <= i < j < |list'| ==> list'[i].apid == list[i].apid && list'[j].apid == list[j].apid;
  }

  /** Marking the latest header invalid raises only its own record's invalid count. */
  lemma MarkInto(list: seq<ApidInfo>, h: seq<Sighting>, c: nat, rec: ApidInfo)
    requires ListValid(list, h) && |h| > 0 && !h[|h| - 1].invalid
    requires c < |list| && list[c].apid == h[|h| - 1].apid
    requires rec == list[c].(invalid := list[c].invalid + 1)
    ensures ListValid(list[c := rec], h[..|h| - 1] + [h[|h| - 1].(invalid := true)])
  {
    var list', h' := list[c := rec], h[..|h| - 1] + [h[|h| - 1].(invalid := true)];
    forall k | 0 <= k < |list'| ensures Summarises(list'[k], h') {
      assert Summarises(list[k], h);
      MarkLastInvalid(h, list[k].apid);
    }
    forall a | !Holds(list', a) ensures Occurrences(h', a) == 0 {
      UpdatedHolds(list, c, rec, a);
      MarkLastInvalid(h, a);
    }
    assert forall i, j :: 0 <= i < j < |list'| ==> list'[i].apid == list[i].apid && list'[j].apid == list[j].apid;
  }

  /** The record list together with `apidinfo`, the record of the latest header. */
  ghost predicate Recorded(list: seq<ApidInfo>, current: int, h: seq<Sighting>) {
    && ListValid(list, h)
    && (current == -1 <==> |h| == 0)
    && (current != -1 ==> 0 <= current < |list| && list[current].apid == h[|h| - 1].apid)
  }

  /** First and last time, previous time and missing seconds, as the MODIS headers give them. */
  ghost predicate TimesAgree(ms: seq<ModisHdr>, first: Timestamp, last: Timestamp, prev: Timestamp,
                             missingSecs: int) {
    TimesOf(ms) == TimeStats(first, last, prev, missingSecs)
  }

  /** Day, night and engineering packets of either source. */
  ghost predicate TalliesAgree(ms: seq<ModisHdr>, day1: nat, night1: nat, eng1: nat, day2: nat,
                               night2: nat, eng2: nat) {
    TalliesOf(ms) == Tallies(day1, night1, eng1, day2, night2, eng2)
  }
}
