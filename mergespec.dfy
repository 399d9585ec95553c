// What pdsmerge's merge loop does, stated over values: the read-until-valid loop of one
// input, the guard against the last selected packet, and the bytes that reach the output.

module MergeSpec {
  import opened Common
  import opened Ccsds
  import opened Modis
  import opened Checksum
  import opened SeqCount
  import opened Window

  /** `hdr[i]->flag`: 0 while the input needs a packet, 1 while it holds one, -1 once its
      file has ended. */
  const NeedsPacket := 0
  const HoldsPacket := 1
  const AtEof := -1

  /** A packet as read: where its frame starts in the input, its decoded primary and MODIS
      headers, and the frame itself (primary header bytes, then the payload). */
  datatype Frame = Frame(at: nat, hdr: PriHdr, mhdr: ModisHdr, bytes: seq<Byte>)

  /** One input: read position, header structure, flag, and the packet in its buffers, which
      means something only while the flag is 1. */
  datatype Source = Source(pos: nat, hdr: PriHdr, flag: int, held: Frame)

  /** Neither before (startday, startmillisec) nor at or after (endday, endmillisec). */
  predicate InWindow(w: Window, t: Timestamp) {
    && !(t.days < w.startDay || (t.days == w.startDay && t.millisec < w.startMs))
    && !(t.days > w.endDay || (t.days == w.endDay && t.millisec >= w.endMs))
  }

  /** The frame is the bytes of `data` at `f.at`: a primary header that decodes to `f.hdr`,
      then its payload, which holds a MODIS header that decodes to `f.mhdr`. */
  predicate FromInput(data: seq<Byte>, f: Frame) {
    && f.at + |f.bytes| <= |data|
    && f.bytes == data[f.at..f.at + |f.bytes|]
    && |f.bytes| == PriHdrSize + PayloadLength(f.hdr)
    && PayloadLength(f.hdr) >= ModisHdrSize
    && DecodePriHdr(f.bytes[..PriHdrSize]) == Ok(f.hdr)
    && f.mhdr == DecodeModisHdr(f.bytes[PriHdrSize..])
  }

  /** A packet the read-until-valid loop keeps: the requested APID, a computed checksum equal
      to the one the packet carries, and a time inside the window. */
  predicate Keeps(w: Window, f: Frame) {
    && |f.bytes| >= PriHdrSize + ModisHdrSize
    && f.hdr.apid == w.apid
    && PayloadChecksum(f.bytes[PriHdrSize..]) == f.mhdr.checksum
    && InWindow(w, TimeOf(f.mhdr))
  }

  /** What one pass of the read-until-valid loop leads to. */
  datatype Step = Skip | Take(f: Frame) | End | Stop(o: Outcome)

  /** The read position and header structure after a pass, and how the pass ended. */
  datatype Pass = Pass(pos: nat, hdr: PriHdr, step: Step)

  /**
   * One pass for one input. A short header read is the end of the file. A version error
   * changes only the version and skips the stale packet length. A failed payload read ends
   * the program with exit code 5.
   */
  function ReadPass(data: seq<Byte>, pos: nat, hdr: PriHdr, w: Window): (r: Pass)
    requires pos <= |data|
    ensures pos <= r.pos <= |data|
    ensures r.step.Skip? ==> r.pos > pos
    ensures r.step.End? ==> r.pos == |data| && r.hdr == hdr
    ensures r.step.Take? ==> (&& r.pos == pos + |r.step.f.bytes| && r.step.f.at == pos && r.hdr == r.step.f.hdr
      && FromInput(data, r.step.f) && Keeps(w, r.step.f))
    ensures r.step.Stop? ==> r.step.o == Exit(ReadFailure) || r.step.o == Undefined
  {
    if |data| - pos < PriHdrSize then Pass(|data|, hdr, End)
    else
      var at := pos + PriHdrSize;
      match DecodePriHdr(data[pos..at])
      case Err(v) =>
        var h := hdr.(version := v);
        if |data| - at < PayloadLength(h) then Pass(|data|, h, Stop(Exit(ReadFailure)))
        else Pass(at + PayloadLength(h), h, Skip)
      case Ok(h) =>
        if |data| - at < PayloadLength(h) then Pass(|data|, h, Stop(Exit(ReadFailure)))
        else
          var r := Examine(data, pos, h, w);
          if r.step.Take? then ExamineTakes(data, pos, h, w); r else r
  }

  /**
   * The rest of a pass, once the header has decoded and the payload has been read: a packet
   * of another APID, with a wrong checksum or outside the window is skipped; a payload too
   * short for the MODIS header is not decoded.
   */
  function Examine(data: seq<Byte>, pos: nat, h: PriHdr, w: Window): (r: Pass)
    requires pos + PriHdrSize + PayloadLength(h) <= |data|
    requires DecodePriHdr(data[pos..pos + PriHdrSize]) == Ok(h)
    ensures r.pos == pos + PriHdrSize + PayloadLength(h) && r.hdr == h
    ensures r.step.Skip? || r.step.Take? || r.step == Stop(Undefined)
  {
    var at := pos + PriHdrSize;
    var next := at + PayloadLength(h);
    var payload := data[at..next];
    if h.apid != w.apid then Pass(next, h, Skip)
    else if PayloadLength(h) < ModisHdrSize then Pass(next, h, Stop(Undefined))
    else
      var m := DecodeModisHdr(payload);
      if PayloadChecksum(payload) != m.checksum then Pass(next, h, Skip)
      else if !InWindow(w, TimeOf(m)) then Pass(next, h, Skip)
      else
        Pass(next, h, Take(Frame(pos, h, m, data[pos..next])))
  }

  /** A packet the tests take is a frame of the input the loop keeps. */
  lemma ExamineTakes(data: seq<Byte>, pos: nat, h: PriHdr, w: Window)
    requires pos + PriHdrSize + PayloadLength(h) <= |data|
    requires DecodePriHdr(data[pos..pos + PriHdrSize]) == Ok(h)
    requires Examine(data, pos, h, w).step.Take?
    ensures var r := Examine(data, pos, h, w);
      && r.step.f.at == pos && r.step.f.hdr == h && |r.step.f.bytes| == r.pos - pos
      && FromInput(data, r.step.f) && Keeps(w, r.step.f)
  {
    var at := pos + PriHdrSize;
    var next := at + PayloadLength(h);
    var f := Examine(data, pos, h, w).step.f;
    assert f.bytes[..PriHdrSize] == data[pos..at] && f.bytes[PriHdrSize..] == data[at..next];
  }

  /** An input's state as the merge loop keeps it. */
  predicate ValidSource(data: seq<Byte>, s: Source, w: Window) {
    && s.pos <= |data|
    && (s.flag == NeedsPacket || s.flag == HoldsPacket || s.flag == AtEof)
    && (s.flag == AtEof ==> s.pos == |data|)
    && (s.flag == HoldsPacket ==> s.hdr == s.held.hdr && s.pos == s.held.at + |s.held.bytes|)
    && (s.flag == HoldsPacket ==> FromInput(data, s.held) && Keeps(w, s.held))
  }

  /** Every input in the state the merge loop keeps. */
  predicate AllValid(inputs: seq<seq<Byte>>, srcs: seq<Source>, w: Window) {
    |srcs| == |inputs| && forall i :: 0 <= i < |srcs| ==> ValidSource(inputs[i], srcs[i], w)
  }

  /** Every input read to its end. */
  predicate AllAtEnd(inputs: seq<seq<Byte>>, srcs: seq<Source>) {
    |srcs| == |inputs| && forall i :: 0 <= i < |inputs| ==> srcs[i].flag == AtEof && srcs[i].pos == |inputs[i]|
  }

  /** No packet the inputs hold is earlier than `f`. */
  predicate NoneEarlier(srcs: seq<Source>, f: Frame) {
    forall i :: 0 <= i < |srcs| && srcs[i].flag == HoldsPacket ==> !TsLess(TimeOf(srcs[i].held.mhdr), TimeOf(f.mhdr))
  }

  /** A packet the merge may select: one the read-until-valid loop keeps, from one of the inputs. */
  predicate Selectable(inputs: seq<seq<Byte>>, w: Window, f: Frame) {
    Keeps(w, f) && exists i :: 0 <= i < |inputs| && FromInput(inputs[i], f)
  }

  /** Every packet selected so far may be selected. */
  predicate AllSelectable(inputs: seq<seq<Byte>>, w: Window, sel: seq<Frame>) {
    forall k :: 0 <= k < |sel| ==> Selectable(inputs, w, sel[k])
  }

  lemma AllSelectableAppend(inputs: seq<seq<Byte>>, w: Window, sel: seq<Frame>, f: Frame)
    requires AllSelectable(inputs, w, sel) && Selectable(inputs, w, f)
    ensures AllSelectable(inputs, w, sel + [f])
  {
    assert forall k :: 0 <= k < |sel| ==> (sel + [f])[k] == sel[k];
  }

  /** A packet an input holds may be selected. */
  lemma HeldIsSelectable(inputs: seq<seq<Byte>>, srcs: seq<Source>, w: Window, i: nat)
    requires AllValid(inputs, srcs, w) && i < |srcs| && srcs[i].flag == HoldsPacket
    ensures Selectable(inputs, w, srcs[i].held)
  {
    assert FromInput(inputs[i], srcs[i].held);
  }

  /**
   * The read-until-valid loop (`for(;hdr[i]->flag == 0;)`): passes until one takes a packet,
   * meets the end of the file or stops the program. Taking a packet moves the read position
   * forward; the end of the file leaves it at the end.
   */
  function Advance(data: seq<Byte>, s: Source, w: Window): (r: Result<Source, Outcome>)
    requires s.pos <= |data|
    ensures r.Ok? ==> (&& ValidSource(data, r.value, w) && r.value.flag != NeedsPacket
      && (r.value.flag == HoldsPacket ==> r.value.held.at >= s.pos)
      && s.pos <= r.value.pos)
    ensures r.Err? ==> r.error == Exit(ReadFailure) || r.error == Undefined
    decreases |data| - s.pos
  {
    var p := ReadPass(data, s.pos, s.hdr, w);
    match p.step
    case Skip => Advance(data, s.(pos := p.pos, hdr := p.hdr), w)
    case Take(f) => Ok(Source(p.pos, p.hdr, HoldsPacket, f))
    case End => Ok(Source(p.pos, p.hdr, AtEof, s.held))
    case Stop(o) => Err(o)
  }

  /** One input before the oldest packet is sought: advanced while it needs a packet, left
      as it is while it holds one or has ended. */
  function Refill(data: seq<Byte>, s: Source, w: Window): (r: Result<Source, Outcome>)
    requires ValidSource(data, s, w)
    ensures r.Ok? ==> ValidSource(data, r.value, w) && r.value.flag != NeedsPacket
    ensures r.Ok? && s.flag != NeedsPacket ==> r.value == s
    ensures r.Err? ==> s.flag == NeedsPacket
  {
    if s.flag == NeedsPacket then Advance(data, s, w) else Ok(s)
  }

  /** Every input refilled in turn, the first failure ending the program. */
  function RefillAll(inputs: seq<seq<Byte>>, srcs: seq<Source>, w: Window): (r: Result<seq<Source>, Outcome>)
    requires |srcs| <= |inputs|
    requires forall i :: 0 <= i < |srcs| ==> ValidSource(inputs[i], srcs[i], w)
    ensures r.Ok? ==> |r.value| == |srcs|
  {
    if |srcs| == 0 then Ok([])
    else
      var n := |srcs| - 1;
      match RefillAll(inputs, srcs[..n], w)
      case Err(e) => Err(e)
      case Ok(done) =>
        match Refill(inputs[n], srcs[n], w)
        case Err(e) => Err(e)
        case Ok(t) => Ok(done + [t])
  }

  /** After a successful refill, each input is what refilling it alone gives. */
  lemma {:induction false} RefillAllEach(inputs: seq<seq<Byte>>, srcs: seq<Source>, w: Window)
    requires |srcs| <= |inputs|
    requires forall i :: 0 <= i < |srcs| ==> ValidSource(inputs[i], srcs[i], w)
    requires RefillAll(inputs, srcs, w).Ok?
    ensures forall i :: 0 <= i < |srcs| ==> Refill(inputs[i], srcs[i], w) == Ok(RefillAll(inputs, srcs, w).value[i])
  {
    if |srcs| > 0 {
      RefillAllEach(inputs, srcs[..|srcs| - 1], w);
    }
  }

  /** A refill that fails on a prefix of the inputs fails for all of them, the same way. */
  lemma {:induction false} RefillAllStopsAt(inputs: seq<seq<Byte>>, srcs: seq<Source>, w: Window, i: nat)
    requires i <= |srcs| <= |inputs|
    requires forall k :: 0 <= k < |srcs| ==> ValidSource(inputs[k], srcs[k], w)
    requires RefillAll(inputs, srcs[..i], w).Err?
    ensures RefillAll(inputs, srcs, w) == RefillAll(inputs, srcs[..i], w)
    decreases |srcs| - i
  {
    if i < |srcs| {
      var n := |srcs| - 1;
      assert srcs[..n][..i] == srcs[..i];
      RefillAllStopsAt(inputs, srcs[..n], w, i);
    } else {
      assert srcs[..i] == srcs;
    }
  }

  /** A failed refill is the failure of the first input whose refill fails. */
  lemma {:induction false} RefillAllFirstFailure(inputs: seq<seq<Byte>>, srcs: seq<Source>, w: Window)
    requires |srcs| <= |inputs|
    requires forall i :: 0 <= i < |srcs| ==> ValidSource(inputs[i], srcs[i], w)
    requires RefillAll(inputs, srcs, w).Err?
    ensures exists i :: && 0 <= i < |srcs| && Refill(inputs[i], srcs[i], w) == Err(RefillAll(inputs, srcs, w).error)
                        && forall j :: 0 <= j < i ==> Refill(inputs[j], srcs[j], w).Ok?
  {
    var n := |srcs| - 1;
    var p := srcs[..n];
    assert forall j :: 0 <= j < n ==> p[j] == srcs[j];
    if RefillAll(inputs, p, w).Err? {
      RefillAllFirstFailure(inputs, p, w);
    } else {
      RefillAllEach(inputs, p, w);
      assert Refill(inputs[n], srcs[n], w).Err?;
    }
  }


  /** No packet: what the buffers of an input mean before its first packet is taken. */
  const NoFrame := Frame(0, PriHdr(0, 0, 0, 0, 0, 0, 0), ModisHdr(0, 0, 0, 0, 0, 0, 0, 0, 0, 0, 0, 0, 0), [])

  /** What is left to do for one input: bytes not yet read, counting a held packet as not
      yet read, and weighting an input that needs a packet above one that holds it. */
  function Remaining(data: seq<Byte>, s: Source): nat {
    if s.flag == AtEof then 0
    else if s.flag == HoldsPacket then (if s.held.at <= |data| then |data| - s.held.at + 1 else 0)
    else if s.pos <= |data| then |data| - s.pos + 2 else 0
  }

  /** What is left to do over all inputs: the merge loop's termination measure. */
  function Pending(inputs: seq<seq<Byte>>, srcs: seq<Source>): nat
    requires |srcs| <= |inputs|
  {
    if |srcs| == 0 then 0
    else Pending(inputs, srcs[..|srcs| - 1]) + Remaining(inputs[|srcs| - 1], srcs[|srcs| - 1])
  }

  /** Advancing an input that needs a packet leaves less to do. */
  lemma AdvanceShrinks(data: seq<Byte>, s: Source, w: Window)
    requires s.pos <= |data| && s.flag == NeedsPacket && Advance(data, s, w).Ok?
    ensures Remaining(data, Advance(data, s, w).value) < Remaining(data, s)
  {
  }

  /** Letting go of a held packet leaves less to do. */
  lemma ReleaseShrinks(data: seq<Byte>, s: Source, w: Window)
    requires ValidSource(data, s, w) && s.flag == HoldsPacket
    ensures Remaining(data, s.(flag := NeedsPacket)) < Remaining(data, s)
  {
  }

  /** When no input grows and one shrinks, the total shrinks. */
  lemma {:induction false} PendingShrinks(inputs: seq<seq<Byte>>, a: seq<Source>, b: seq<Source>, k: nat)
    requires |a| == |b| <= |inputs| && k < |a|
    requires forall i :: 0 <= i < |a| ==> Remaining(inputs[i], b[i]) <= Remaining(inputs[i], a[i])
    requires Remaining(inputs[k], b[k]) < Remaining(inputs[k], a[k])
    ensures Pending(inputs, b) < Pending(inputs, a)
  {
    var n := |a| - 1;
    if k < n {
      PendingShrinks(inputs, a[..n], b[..n], k);
    } else {
      PendingBounded(inputs, a[..n], b[..n]);
    }
  }

  lemma {:induction false} PendingBounded(inputs: seq<seq<Byte>>, a: seq<Source>, b: seq<Source>)
    requires |a| == |b| <= |inputs|
    requires forall i :: 0 <= i < |a| ==> Remaining(inputs[i], b[i]) <= Remaining(inputs[i], a[i])
    ensures Pending(inputs, b) <= Pending(inputs, a)
  {
    if |a| > 0 {
      PendingBounded(inputs, a[..|a| - 1], b[..|b| - 1]);
    }
  }

  /** Two held packets the scan treats as one: same time and same sequence count. */
  predicate SameOffer(a: Source, b: Source) {
    TimeOf(a.held.mhdr) == TimeOf(b.held.mhdr) && a.hdr.pktCount == b.hdr.pktCount
  }

  /**
   * The guard of the merge loop against the last selected packet (lastdays, lastmillisec,
   * lastmicrosec, lastpktcount): false where the C code discards the selected packet.
   */
  function Writes(t: Timestamp, count: int, last: Timestamp, lastCount: int): bool
    requires IsCount(count) && IsCount(lastCount)
  {
    if t.days < last.days then false
    else if t.days == last.days then
      if t.millisec < last.millisec then false
      else if t.millisec == last.millisec then
        if t.microsec < last.microsec then false
        else if t.microsec == last.microsec then PktDiff(count, lastCount) > 0
        else true
      else true
    else true
  }

  /** The guard writes exactly the packets strictly after the last one selected: later in
      time, or at the same time with a count ahead by the wrapped difference. */
  lemma WritesIffAfter(t: Timestamp, count: int, last: Timestamp, lastCount: int)
    requires IsCount(count) && IsCount(lastCount)
    ensures Writes(t, count, last, lastCount)
      <==> TsLess(last, t) || (t == last && PktDiff(count, lastCount) > 0)
  {
  }

  /** A replay of the packet selected last is never written. */
  lemma ReplayNotWritten(t: Timestamp, count: int)
    requires IsCount(count)
    ensures !Writes(t, count, t, count)
  {
  }

  /** The time and count the guard compares against: those of the last selected packet, or
      the initial zeros. */
  function LastSelected(sel: seq<Frame>): (Timestamp, int) {
    if |sel| == 0 then (Timestamp(0, 0, 0), 0)
    else (TimeOf(sel[|sel| - 1].mhdr), sel[|sel| - 1].hdr.pktCount)
  }

  /** The packets written, given the packets selected in order: each is written when the
      guard lets it pass against the one selected before it, written or not. */
  function WrittenOf(sel: seq<Frame>): (out: seq<Frame>)
    ensures |out| <= |sel|
  {
    if |sel| == 0 then []
    else
      var p, f := sel[..|sel| - 1], sel[|sel| - 1];
      var (t, c) := LastSelected(p);
      WrittenOf(p) + (if Writes(TimeOf(f.mhdr), f.hdr.pktCount, t, c) then [f] else [])
  }

  /** The output file: the frames written, one after the other. */
  function Flatten(fs: seq<Frame>): seq<Byte> {
    if |fs| == 0 then [] else Flatten(fs[..|fs| - 1]) + fs[|fs| - 1].bytes
  }

  /** Every written packet was selected. */
  lemma {:induction false} WrittenAreSelected(sel: seq<Frame>)
    ensures forall f :: f in WrittenOf(sel) ==> f in sel
  {
    if |sel| > 0 {
      WrittenAreSelected(sel[..|sel| - 1]);
    }
  }

  /** Packets selected in strictly increasing order, the first after the initial zeros, are
      all written. */
  lemma {:induction false} InOrderAllWritten(sel: seq<Frame>)
    requires forall k :: 0 <= k < |sel| ==>
      var (t, c) := LastSelected(sel[..k]);
      TsLess(t, TimeOf(sel[k].mhdr))
    ensures WrittenOf(sel) == sel
  {
    if |sel| > 0 {
      var p := sel[..|sel| - 1];
      forall k | 0 <= k < |p|
        ensures var (t, c) := LastSelected(p[..k]); TsLess(t, TimeOf(p[k].mhdr))
      {
        assert p[..k] == sel[..k];
      }
      InOrderAllWritten(p);
      var (t, c) := LastSelected(p);
      var f := sel[|p|];
      WritesIffAfter(TimeOf(f.mhdr), f.hdr.pktCount, t, c);
      assert WrittenOf(sel) == WrittenOf(p) + [f];
      DropLast(sel);
    }
  }

  /**
   * The guard orders a packet only against the packet selected before it: an input whose
   * times run 10, 5, 7 days has its first and third packets written, the third earlier than
   * the first.
   */
  lemma GuardAllowsRegression(h: PriHdr, m: ModisHdr, bytes: seq<Byte>)
    ensures var a, b, c := Frame(0, h, m.(days := 10), bytes), Frame(0, h, m.(days := 5), bytes),
                           Frame(0, h, m.(days := 7), bytes);
      WrittenOf([a, b, c]) == [a, c] && TsLess(TimeOf(c.mhdr), TimeOf(a.mhdr))
  {
    var a, b, c := Frame(0, h, m.(days := 10), bytes), Frame(0, h, m.(days := 5), bytes),
                   Frame(0, h, m.(days := 7), bytes);
    assert [a, b, c][..2] == [a, b] && [a, b][..1] == [a] && [a][..0] == [];
    assert WrittenOf([a]) == [a];
    assert WrittenOf([a, b]) == [a];
  }

  /** The first selected packet is dropped when it is stamped day 0, millisecond 0,
      microsecond 0 with count 0: it equals the guard's initial values. */
  lemma EpochPacketDropped(h: PriHdr, m: ModisHdr)
    requires TimeOf(m) == Timestamp(0, 0, 0) && h.pktCount == 0
    ensures WrittenOf([Frame(0, h, m, [])]) == []
  {
    assert [Frame(0, h, m, [])][..0] == [];
  }
}
