// One turn of pdsmerge's main loop stated over values (refill every input, scan for the
// oldest packet, drop its copies, let it go from its input) and the whole run as the
// sequence of turns until a read fails or every input has ended.

module MergeTurn {
  import opened Common
  import opened Ccsds
  import opened Modis
  import opened SeqCount
  import opened Window
  import opened MergeSpec

  /** The packet held by `a` goes before the one held by `b`: earlier, or at the same time
      with a wrapped count behind. */
  predicate Precedes(a: Source, b: Source) {
    || TsLess(TimeOf(a.held.mhdr), TimeOf(b.held.mhdr))
    || (TimeOf(a.held.mhdr) == TimeOf(b.held.mhdr) && PktDiff(a.hdr.pktCount, b.hdr.pktCount) < 0)
  }

  /** Where the oldest scan stands: whether a held packet has been met, the input leading
      the scan, and the inputs with the copies dropped so far. */
  datatype Scan = Scan(found: bool, oldest: nat, r: seq<Source>)

  /** The scan on input `i`: the first held packet leads; a packet that goes before the
      leader takes its place; a copy of the leader's packet is dropped. */
  function ScanStep(s: Scan, i: nat): (t: Scan)
    requires i < |s.r| && (s.found ==> s.oldest < i)
    ensures |t.r| == |s.r| && (t.found ==> t.oldest <= i)
  {
    if s.r[i].flag != HoldsPacket then s
    else if !s.found then Scan(true, i, s.r)
    else if Precedes(s.r[i], s.r[s.oldest]) then s.(oldest := i)
    else if SameOffer(s.r[i], s.r[s.oldest]) then s.(r := s.r[i := s.r[i].(flag := NeedsPacket)])
    else s
  }

  /** The scan over the first `n` inputs. */
  function OldestScan(srcs: seq<Source>, n: nat): (s: Scan)
    requires n <= |srcs|
    ensures |s.r| == |srcs| && (s.found ==> s.oldest < n)
  {
    if n == 0 then Scan(false, 0, srcs) else ScanStep(OldestScan(srcs, n - 1), n - 1)
  }

  /** Input `i` lost its packet to the scan as a copy of a packet an earlier input still holds. */
  predicate DroppedAsCopy(srcs: seq<Source>, r: seq<Source>, i: int)
    requires 0 <= i < |srcs| == |r|
  {
    && srcs[i].flag == HoldsPacket && r[i] == srcs[i].(flag := NeedsPacket)
    && exists j :: 0 <= j < i && srcs[j].flag == HoldsPacket && r[j] == srcs[j] && SameOffer(srcs[i], srcs[j])
  }

  /** Each of the first `n` inputs keeps its packet or drops it as a copy. */
  predicate KeptOrDropped(srcs: seq<Source>, r: seq<Source>, n: nat)
    requires n <= |srcs| == |r|
  {
    forall k :: 0 <= k < n ==> r[k] == srcs[k] || DroppedAsCopy(srcs, r, k)
  }

  /** Every input after `oldest` and before `n` holding a copy of its packet has dropped it. */
  predicate CopiesDropped(srcs: seq<Source>, r: seq<Source>, oldest: nat, n: nat)
    requires oldest < |srcs| && n <= |srcs| == |r|
  {
    forall k :: oldest < k < n && srcs[k].flag == HoldsPacket && SameOffer(srcs[k], srcs[oldest]) ==>
      r[k] == srcs[k].(flag := NeedsPacket)
  }

  /**
   * What the scan over the first `n` inputs finds: a packet exactly when one of them holds
   * one, held by an input the scan leaves alone and earlier than no other held packet; every
   * input keeps its packet or drops it as a copy, every later copy of the packet found is
   * dropped, and the inputs not yet scanned are untouched.
   */
  lemma {:induction false} OldestScanFacts(srcs: seq<Source>, n: nat)
    requires n <= |srcs|
    ensures var s := OldestScan(srcs, n);
      && (s.found <==> exists k :: 0 <= k < n && srcs[k].flag == HoldsPacket)
      && (s.found ==> srcs[s.oldest].flag == HoldsPacket && s.r[s.oldest] == srcs[s.oldest])
      && (s.found ==> forall k :: 0 <= k < n && srcs[k].flag == HoldsPacket ==>
            !TsLess(TimeOf(srcs[k].held.mhdr), TimeOf(srcs[s.oldest].held.mhdr)))
      && (s.found ==> CopiesDropped(srcs, s.r, s.oldest, n))
      && KeptOrDropped(srcs, s.r, n)
      && (forall k :: n <= k < |srcs| ==> s.r[k] == srcs[k])
      && (!s.found ==> s.r == srcs)
  {
    ScanFrame(srcs, n);
    ScanOrder(srcs, n);
  }

  /** The scan changes only inputs it has passed, each by dropping a copy, and never the
      input leading it. */
  lemma {:induction false} ScanFrame(srcs: seq<Source>, n: nat)
    requires n <= |srcs|
    ensures var s := OldestScan(srcs, n);
      && (s.found ==> srcs[s.oldest].flag == HoldsPacket && s.r[s.oldest] == srcs[s.oldest])
      && KeptOrDropped(srcs, s.r, n)
      && (forall k :: n <= k < |srcs| ==> s.r[k] == srcs[k])
      && (!s.found ==> s.r == srcs)
  {
    if n > 0 {
      var i := n - 1;
      ScanFrame(srcs, i);
      var s, t := OldestScan(srcs, i), OldestScan(srcs, n);
      if s.r[i].flag == HoldsPacket && s.found && !Precedes(s.r[i], s.r[s.oldest]) && SameOffer(s.r[i], s.r[s.oldest]) {
        assert DroppedAsCopy(srcs, t.r, i);
        forall k | 0 <= k < i && s.r[k] != srcs[k]
          ensures DroppedAsCopy(srcs, t.r, k)
        {
          var j :| 0 <= j < k && srcs[j].flag == HoldsPacket && s.r[j] == srcs[j] && SameOffer(srcs[k], srcs[j]);
          assert t.r[j] == srcs[j];
        }
      }
    }
  }

  /** The scan finds a packet exactly when an input holds one, no held packet is earlier
      than the one it leads with, and every later copy of that packet has been dropped. */
  lemma {:induction false} ScanOrder(srcs: seq<Source>, n: nat)
    requires n <= |srcs|
    ensures var s := OldestScan(srcs, n);
      && (s.found <==> exists k :: 0 <= k < n && srcs[k].flag == HoldsPacket)
      && (s.found ==> forall k :: 0 <= k < n && srcs[k].flag == HoldsPacket ==>
            !TsLess(TimeOf(srcs[k].held.mhdr), TimeOf(srcs[s.oldest].held.mhdr)))
      && (s.found ==> CopiesDropped(srcs, s.r, s.oldest, n))
  {
    if n > 0 {
      ScanOrder(srcs, n - 1);
      ScanFrame(srcs, n - 1);
    }
  }

  /** How one turn of the main loop ends: a failed read, every input at its end, or the
      packet the scan selected with the inputs after it. */
  datatype Turn = Failed(o: Outcome) | Drained(final: seq<Source>) | Picked(f: Frame, next: seq<Source>)

  /** One turn: refill every input, scan for the oldest packet, let it go from its input. */
  function TurnOf(inputs: seq<seq<Byte>>, srcs: seq<Source>, w: Window): Turn
    requires AllValid(inputs, srcs, w)
  {
    match RefillAll(inputs, srcs, w)
    case Err(e) => Failed(e)
    case Ok(refilled) =>
      var s := OldestScan(refilled, |refilled|);
      if !s.found then Drained(s.r)
      else Picked(s.r[s.oldest].held, s.r[s.oldest := s.r[s.oldest].(flag := NeedsPacket)])
  }

  /**
   * `next` is `refilled` after input `k`'s packet `f` was selected: input `k` needs a packet
   * again; every other input keeps its packet or has dropped it as a copy of a packet an
   * earlier input held, that input being `k` or one that keeps its packet; and every input
   * after `k` holding a copy of `f` has dropped it.
   */
  predicate LetsGo(refilled: seq<Source>, f: Frame, next: seq<Source>, k: nat)
    requires |next| == |refilled| && k < |refilled|
  {
    && refilled[k].flag == HoldsPacket && f == refilled[k].held
    && next[k] == refilled[k].(flag := NeedsPacket)
    && (forall i :: 0 <= i < |refilled| && i != k ==> next[i] == refilled[i] || CopyLetGo(refilled, next, k, i))
    && (forall i :: k < i < |refilled| && refilled[i].flag == HoldsPacket && SameOffer(refilled[i], refilled[k]) ==>
          next[i] == refilled[i].(flag := NeedsPacket))
  }

  /** Input `i` dropped its packet as a copy of the one an earlier input held, that input
      being `k` or one that keeps its packet. */
  predicate CopyLetGo(refilled: seq<Source>, next: seq<Source>, k: nat, i: nat)
    requires |next| == |refilled| && i < |refilled|
  {
    && refilled[i].flag == HoldsPacket && next[i] == refilled[i].(flag := NeedsPacket)
    && exists j :: && 0 <= j < i && refilled[j].flag == HoldsPacket && SameOffer(refilled[i], refilled[j])
                   && (j == k || next[j] == refilled[j])
  }

  /**
   * A turn fails exactly as the refill does, with exit code 5 or the undefined outcome; it
   * ends the loop only when every input is at its end; otherwise it selects a packet one of
   * the inputs held after the refill, which the read-until-valid loop keeps and no held
   * packet precedes in time, and leaves every input valid and less input pending.
   */
  lemma {:induction false} TurnFacts(inputs: seq<seq<Byte>>, srcs: seq<Source>, w: Window)
    requires AllValid(inputs, srcs, w)
    ensures var t, R := TurnOf(inputs, srcs, w), RefillAll(inputs, srcs, w);
      && (t.Failed? <==> R.Err?)
      && (t.Failed? ==> R == Err(t.o) && (t.o == Exit(ReadFailure) || t.o == Undefined))
      && (t.Drained? ==> R == Ok(t.final) && AllAtEnd(inputs, t.final))
      && (t.Picked? ==> && R.Ok? && |t.next| == |R.value|
                        && (exists k :: 0 <= k < |R.value| && LetsGo(R.value, t.f, t.next, k))
                        && Selectable(inputs, w, t.f) && NoneEarlier(R.value, t.f)
                        && AllValid(inputs, t.next, w) && Pending(inputs, t.next) < Pending(inputs, srcs))
  {
    var R := RefillAll(inputs, srcs, w);
    if R.Err? {
      RefillAllFirstFailure(inputs, srcs, w);
    } else {
      var refilled := R.value;
      RefillAllEach(inputs, srcs, w);
      OldestScanFacts(refilled, |refilled|);
      var s := OldestScan(refilled, |refilled|);
      if !s.found {
        AllEnded(inputs, srcs, refilled, w);
      } else {
        var k := s.oldest;
        var next := s.r[k := s.r[k].(flag := NeedsPacket)];
        HeldIsSelectable(inputs, refilled, w, k);
        Shrinks(inputs, srcs, refilled, s.r, next, k, w);
        ScanLetsGo(refilled);
      }
    }
  }

  /** The packet the scan finds, let go from its input, leaves the inputs as `LetsGo` says. */
  lemma {:induction false} ScanLetsGo(refilled: seq<Source>)
    requires OldestScan(refilled, |refilled|).found
    ensures var s := OldestScan(refilled, |refilled|);
      LetsGo(refilled, s.r[s.oldest].held, s.r[s.oldest := s.r[s.oldest].(flag := NeedsPacket)], s.oldest)
  {
    OldestScanFacts(refilled, |refilled|);
    var s := OldestScan(refilled, |refilled|);
    LetGoAfterScan(refilled, s.r, s.oldest);
  }

  /** Letting go of input `k`'s packet after a scan that kept it and dropped only copies. */
  lemma {:induction false} LetGoAfterScan(refilled: seq<Source>, scanned: seq<Source>, k: nat)
    requires |scanned| == |refilled| && k < |refilled|
    requires refilled[k].flag == HoldsPacket && scanned[k] == refilled[k]
    requires KeptOrDropped(refilled, scanned, |refilled|)
    requires CopiesDropped(refilled, scanned, k, |refilled|)
    ensures LetsGo(refilled, refilled[k].held, scanned[k := scanned[k].(flag := NeedsPacket)], k)
  {
    var next := scanned[k := scanned[k].(flag := NeedsPacket)];
    forall i | 0 <= i < |refilled| && i != k && next[i] != refilled[i]
      ensures CopyLetGo(refilled, next, k, i)
    {
      assert DroppedAsCopy(refilled, scanned, i);
      var j :| 0 <= j < i && refilled[j].flag == HoldsPacket && scanned[j] == refilled[j] && SameOffer(refilled[i], refilled[j]);
      assert j == k || next[j] == refilled[j];
    }
  }

  /** One turn of the main loop leaves every input valid and less to do overall. */
  lemma {:induction false} Shrinks(inputs: seq<seq<Byte>>, srcs: seq<Source>, refilled: seq<Source>, scanned: seq<Source>,
                next: seq<Source>, oldest: nat, w: Window)
    requires |srcs| == |inputs| == |refilled| == |scanned| && oldest < |scanned|
    requires forall i :: 0 <= i < |srcs| ==> ValidSource(inputs[i], srcs[i], w)
    requires forall i :: 0 <= i < |srcs| ==> Refill(inputs[i], srcs[i], w) == Ok(refilled[i])
    requires KeptOrDropped(refilled, scanned, |srcs|)
    requires scanned[oldest] == refilled[oldest] && refilled[oldest].flag == HoldsPacket
    requires next == scanned[oldest := scanned[oldest].(flag := NeedsPacket)]
    ensures AllValid(inputs, next, w)
    ensures Pending(inputs, next) < Pending(inputs, srcs)
  {
    forall i | 0 <= i < |srcs|
      ensures ValidSource(inputs[i], next[i], w)
      ensures Remaining(inputs[i], next[i]) <= Remaining(inputs[i], srcs[i])
      ensures i == oldest ==> Remaining(inputs[i], next[i]) < Remaining(inputs[i], srcs[i])
    {
      if srcs[i].flag == NeedsPacket {
        AdvanceShrinks(inputs[i], srcs[i], w);
      }
      if scanned[i] != refilled[i] || i == oldest {
        ReleaseShrinks(inputs[i], refilled[i], w);
      }
    }
    PendingShrinks(inputs, srcs, next, oldest);
  }

  /** With no packet held after the refill, every input has reached its end. */
  lemma {:induction false} AllEnded(inputs: seq<seq<Byte>>, srcs: seq<Source>, refilled: seq<Source>, w: Window)
    requires AllValid(inputs, srcs, w) && |refilled| == |srcs|
    requires forall i :: 0 <= i < |srcs| ==> Refill(inputs[i], srcs[i], w) == Ok(refilled[i])
    requires forall i :: 0 <= i < |srcs| ==> refilled[i].flag != HoldsPacket
    ensures forall i :: 0 <= i < |srcs| ==> refilled[i].flag == AtEof && refilled[i].pos == |inputs[i]|
  {
    forall i | 0 <= i < |srcs|
      ensures refilled[i].flag == AtEof && refilled[i].pos == |inputs[i]|
    {
      assert ValidSource(inputs[i], refilled[i], w);
    }
  }

  /** The inputs before the first turn: at their start, needing a packet, with the header
      structures as allocated. */
  function Initial(inputs: seq<seq<Byte>>, uninit: seq<PriHdr>): (srcs: seq<Source>)
    requires |uninit| == |inputs|
    ensures |srcs| == |inputs|
    ensures forall i :: 0 <= i < |srcs| ==> srcs[i] == Source(0, uninit[i], NeedsPacket, NoFrame)
  {
    seq(|inputs|, i requires 0 <= i < |inputs| => Source(0, uninit[i], NeedsPacket, NoFrame))
  }

  /** How a run of the main loop ends, the packets it selected in order, and the inputs as
      they were left. */
  datatype Run = Run(o: Outcome, selected: seq<Frame>, final: seq<Source>)

  /** The main loop from `srcs` on: turn after turn until one fails or finds every input at
      its end. */
  function RunFrom(inputs: seq<seq<Byte>>, srcs: seq<Source>, w: Window): Run
    requires AllValid(inputs, srcs, w)
    decreases Pending(inputs, srcs)
  {
    TurnFacts(inputs, srcs, w);
    match TurnOf(inputs, srcs, w)
    case Failed(e) => Run(e, [], srcs)
    case Drained(final) => Run(Exit(0), [], final)
    case Picked(f, next) =>
      var rest := RunFrom(inputs, next, w);
      Run(rest.o, [f] + rest.selected, rest.final)
  }

  /**
   * A run ends with exit code 0, exit code 5 or the undefined outcome; exit code 0 only
   * with every input read to its end; and every packet it selects comes from an input,
   * with the APID, checksum and window asked for.
   */
  lemma {:induction false} RunFacts(inputs: seq<seq<Byte>>, srcs: seq<Source>, w: Window)
    requires AllValid(inputs, srcs, w)
    ensures var r := RunFrom(inputs, srcs, w);
      && (r.o == Exit(0) || r.o == Exit(ReadFailure) || r.o == Undefined)
      && (r.o == Exit(0) ==> AllAtEnd(inputs, r.final))
      && AllSelectable(inputs, w, r.selected)
    decreases Pending(inputs, srcs)
  {
    TurnFacts(inputs, srcs, w);
    var t := TurnOf(inputs, srcs, w);
    if t.Picked? {
      RunFacts(inputs, t.next, w);
      var rest := RunFrom(inputs, t.next, w);
      assert forall k :: 0 < k <= |rest.selected| ==> ([t.f] + rest.selected)[k] == rest.selected[k - 1];
    }
  }
}
