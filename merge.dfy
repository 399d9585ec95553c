// pdsmerge's merge loop: refill every input, pick the oldest packet, drop copies of it,
// guard against the last packet selected, and append what passes to the output.

module Merge {
  import opened Common
  import opened Ccsds
  import opened Modis
  import opened Checksum
  import opened SeqCount
  import opened Window
  import opened MergeSpec
  import opened MergeTurn

  /**
   * The read-until-valid loop of one input: reads a header and its payload, resynchronises
   * after a version error, and skips packets of another APID, with a wrong checksum or
   * outside the window.
   */
  method AdvanceSource(data: seq<Byte>, s: Source, w: Window) returns (r: Result<Source, Outcome>)
    requires s.pos <= |data|
    ensures r == Advance(data, s, w)
  {
    var pos, hdr := s.pos, s.hdr;
    while true
      invariant pos <= |data|
      invariant Advance(data, s.(pos := pos, hdr := hdr), w) == Advance(data, s, w)
      decreases |data| - pos
    {
      var p := ReadOnce(data, pos, hdr, w);
      match p.step
      case Skip =>
        pos, hdr := p.pos, p.hdr;
      case Take(f) =>
        return Ok(Source(p.pos, p.hdr, HoldsPacket, f));
      case End =>
        return Ok(Source(p.pos, p.hdr, AtEof, s.held));
      case Stop(o) =>
        return Err(o);
    }
  }

  /** One pass of that loop. */
  method ReadOnce(data: seq<Byte>, pos: nat, hdr: PriHdr, w: Window) returns (p: Pass)
    requires pos <= |data|
    ensures p == ReadPass(data, pos, hdr, w)
  {
    if |data| - pos < PriHdrSize {
      return Pass(|data|, hdr, End);
    }
    var at := pos + PriHdrSize;
    var decoded := DecodePriHdr(data[pos..at]);
    if decoded.Err? {
      var h := hdr.(version := decoded.error);
      if |data| - at < PayloadLength(h) {
        return Pass(|data|, h, Stop(Exit(ReadFailure)));
      }
      return Pass(at + PayloadLength(h), h, Skip);
    }
    var h := decoded.value;
    if |data| - at < PayloadLength(h) {
      return Pass(|data|, h, Stop(Exit(ReadFailure)));
    }
    p := ExamineOnce(data, pos, h, w);
  }

  /** The tests a packet of a good header and a readable payload goes through. */
  method ExamineOnce(data: seq<Byte>, pos: nat, h: PriHdr, w: Window) returns (p: Pass)
    requires pos + PriHdrSize + PayloadLength(h) <= |data|
    requires DecodePriHdr(data[pos..pos + PriHdrSize]) == Ok(h)
    ensures p == Examine(data, pos, h, w)
  {
    var at := pos + PriHdrSize;
    var len := PayloadLength(h);
    var next := at + len;
    var payload := data[at..next];
    if h.apid != w.apid {
      return Pass(next, h, Skip);
    }
    if len < ModisHdrSize {
      return Pass(next, h, Stop(Undefined));
    }
    var m := DecodeModisHdr(payload);
    var chksum := ComputePayloadChecksum(payload);
    if chksum != m.checksum {
      return Pass(next, h, Skip);
    }
    if m.days < w.startDay || (m.days == w.startDay && m.millisec < w.startMs) {
      return Pass(next, h, Skip);
    }
    if m.days > w.endDay || (m.days == w.endDay && m.millisec >= w.endMs) {
      return Pass(next, h, Skip);
    }
    return Pass(next, h, Take(Frame(pos, h, m, data[pos..next])));
  }

  /** The first half of the main loop: every input that needs a packet is advanced, in order. */
  method AdvanceAll(inputs: seq<seq<Byte>>, srcs: seq<Source>, w: Window) returns (r: Result<seq<Source>, Outcome>)
    requires |srcs| == |inputs|
    requires forall i :: 0 <= i < |srcs| ==> ValidSource(inputs[i], srcs[i], w)
    ensures r == RefillAll(inputs, srcs, w)
  {
    var done: seq<Source> := [];
    for i := 0 to |srcs|
      invariant RefillAll(inputs, srcs[..i], w) == Ok(done)
    {
      assert srcs[..i + 1][..i] == srcs[..i];
      var t := srcs[i];
      if t.flag == NeedsPacket {
        var a := AdvanceSource(inputs[i], t, w);
        if a.Err? {
          RefillAllStopsAt(inputs, srcs, w, i + 1);
          return Err(a.error);
        }
        t := a.value;
      }
      done := done + [t];
    }
    assert srcs[..|srcs|] == srcs;
    r := Ok(done);
  }

  /**
   * How the packet held by `a` compares with the one held by `b` in the oldest scan:
   * negative when it is older (earlier, or at the same time with a wrapped count behind),
   * zero when it is the same packet (same time, same count), positive otherwise.
   */
  method Compare(a: Source, b: Source) returns (c: int)
    ensures c < 0 <==> Precedes(a, b)
    ensures c == 0 <==> SameOffer(a, b)
  {
    var x, y := a.held.mhdr, b.held.mhdr;
    if x.days < y.days {
      return -1;
    }
    if x.days > y.days {
      return 1;
    }
    if x.millisec < y.millisec {
      return -1;
    }
    if x.millisec > y.millisec {
      return 1;
    }
    if x.microsec < y.microsec {
      return -1;
    }
    if x.microsec > y.microsec {
      return 1;
    }
    var pktdiff := a.hdr.pktCount - b.hdr.pktCount;
    if pktdiff < -8191 {
      pktdiff := pktdiff + 16384;
    }
    if pktdiff > 8191 {
      pktdiff := pktdiff - 16384;
    }
    assert pktdiff == PktDiff(a.hdr.pktCount, b.hdr.pktCount);
    if pktdiff < 0 {
      return -1;
    }
    if pktdiff > 0 {
      return 1;
    }
    return 0;
  }

  /**
   * The oldest scan: finds an input holding a packet no other held packet precedes in time,
   * and makes every input that holds a copy of the packet of the input leading the scan
   * need a packet again.
   */
  method FindOldest(srcs: seq<Source>) returns (found: bool, oldest: nat, r: seq<Source>)
    ensures Scan(found, oldest, r) == OldestScan(srcs, |srcs|)
    ensures |r| == |srcs|
    ensures found <==> exists i :: 0 <= i < |srcs| && srcs[i].flag == HoldsPacket
    ensures found ==> oldest < |srcs| && srcs[oldest].flag == HoldsPacket && r[oldest] == srcs[oldest]
    ensures found ==> forall i :: 0 <= i < |srcs| && srcs[i].flag == HoldsPacket ==>
      !TsLess(TimeOf(srcs[i].held.mhdr), TimeOf(srcs[oldest].held.mhdr))
    ensures found ==> forall i :: oldest < i < |srcs| && srcs[i].flag == HoldsPacket && SameOffer(srcs[i], srcs[oldest]) ==>
      r[i] == srcs[i].(flag := NeedsPacket)
    ensures forall i :: 0 <= i < |srcs| ==> r[i] == srcs[i] || DroppedAsCopy(srcs, r, i)
    ensures !found ==> r == srcs
  {
    found, oldest, r := false, 0, srcs;
    for i := 0 to |srcs|
      invariant Scan(found, oldest, r) == OldestScan(srcs, i)
    {
      if r[i].flag != HoldsPacket {
        continue;
      }
      if !found {
        found, oldest := true, i;
        continue;
      }
      var c := Compare(r[i], r[oldest]);
      if c < 0 {
        oldest := i;
      } else if c == 0 {
        r := r[i := r[i].(flag := NeedsPacket)];
      }
    }
    OldestScanFacts(srcs, |srcs|);
  }

  /** The guard against the last selected packet, then the write of the packet if it passes. */
  method Emit(f: Frame, last: Timestamp, lastCount: int, output: seq<Byte>, ghost selected: seq<Frame>)
    returns (extended: seq<Byte>)
    requires IsCount(lastCount) && LastSelected(selected) == (last, lastCount)
    requires output == Flatten(WrittenOf(selected))
    ensures extended == Flatten(WrittenOf(selected + [f]))
  {
    assert (selected + [f])[..|selected|] == selected;
    if Writes(TimeOf(f.mhdr), f.hdr.pktCount, last, lastCount) {
      ghost var written := WrittenOf(selected) + [f];
      assert written[..|written| - 1] == WrittenOf(selected);
      assert WrittenOf(selected + [f]) == written;
      extended := output + f.bytes;
    } else {
      assert WrittenOf(selected + [f]) == WrittenOf(selected);
      extended := output;
    }
  }

  /**
   * The first part of a turn of the main loop: refill the inputs, find the oldest packet and
   * let it go from its input.
   */
  method PickOldest(inputs: seq<seq<Byte>>, srcs: seq<Source>, w: Window) returns (t: Turn)
    requires AllValid(inputs, srcs, w)
    ensures t == TurnOf(inputs, srcs, w)
    ensures t.Failed? ==> RefillAll(inputs, srcs, w) == Err(t.o) && (t.o == Exit(ReadFailure) || t.o == Undefined)
    ensures t.Drained? ==> RefillAll(inputs, srcs, w) == Ok(t.final) && AllAtEnd(inputs, t.final)
    ensures t.Picked? ==> && RefillAll(inputs, srcs, w).Ok? && Selectable(inputs, w, t.f)
                          && NoneEarlier(RefillAll(inputs, srcs, w).value, t.f)
                          && AllValid(inputs, t.next, w) && Pending(inputs, t.next) < Pending(inputs, srcs)
  {
    TurnFacts(inputs, srcs, w);
    var refilled := AdvanceAll(inputs, srcs, w);
    if refilled.Err? {
      return Failed(refilled.error);
    }
    var found, oldest, scanned := FindOldest(refilled.value);
    if !found {
      return Drained(scanned);
    }
    var next := scanned[oldest := scanned[oldest].(flag := NeedsPacket)];
    return Picked(scanned[oldest].held, next);
  }

  /**
   * The main loop. `uninit` stands for the header structures as allocated, whose fields a
   * version error in an input's first packet leaves in place. The run is the sequence of
   * turns from the initial inputs; the output is the packets the guard lets pass, in the
   * order the scan selects them; the program ends with exit code 0 only once every input
   * has reached its end.
   */
  method Merge(inputs: seq<seq<Byte>>, w: Window, uninit: seq<PriHdr>)
    returns (o: Outcome, output: seq<Byte>, ghost selected: seq<Frame>, ghost final: seq<Source>)
    requires |uninit| == |inputs|
    ensures Run(o, selected, final) == RunFrom(inputs, Initial(inputs, uninit), w)
    ensures output == Flatten(WrittenOf(selected))
    ensures forall k :: 0 <= k < |selected| ==> Selectable(inputs, w, selected[k])
    ensures o == Exit(0) || o == Exit(ReadFailure) || o == Undefined
    ensures o == Exit(0) ==> AllAtEnd(inputs, final)
  {
    var srcs := Initial(inputs, uninit);
    ghost var init := srcs;
    var last, lastCount := Timestamp(0, 0, 0), 0;
    output, selected := [], [];
    RunFacts(inputs, init, w);
    assert selected + RunFrom(inputs, init, w).selected == RunFrom(inputs, init, w).selected;
    while true
      invariant AllValid(inputs, srcs, w)
      invariant output == Flatten(WrittenOf(selected))
      invariant LastSelected(selected) == (last, lastCount) && IsCount(lastCount)
      invariant var r := RunFrom(inputs, srcs, w);
        RunFrom(inputs, init, w) == Run(r.o, selected + r.selected, r.final)
      decreases Pending(inputs, srcs)
    {
      var t := PickOldest(inputs, srcs, w);
      match t
      case Failed(e) =>
        assert selected + [] == selected;
        return e, output, selected, srcs;
      case Drained(s) =>
        assert selected + [] == selected;
        return Exit(0), output, selected, s;
      case Picked(f, next) =>
        output := Emit(f, last, lastCount, output, selected);
        AppendAssoc(selected, [f], RunFrom(inputs, next, w).selected);
        selected := selected + [f];
        last, lastCount := TimeOf(f.mhdr), f.hdr.pktCount;
        srcs := next;
    }
  }
}
