# pds-tools core in Dafny

This project models the core of pds-tools. These are two command-line tools for MODIS
level-0 data in the CCSDS Production Data Set (PDS) format:

- **pdsinfo** reads one PDS file. It reports, per APID:
  - how many packets it counted;
  - how many packets the sequence counter says are missing;
  - how many MODIS packets fail their 12-bit checksum.

  It also reports the time of the first and last MODIS packet, the seconds the stream spans,
  and tallies of day, night and engineering packets.
- **pdsmerge** merges several PDS files into one. It keeps only the packets that meet all
  of these:
  - they carry one MODIS APID;
  - their checksum is right;
  - they fall inside a time window.

  Packets are written oldest first, and duplicates across inputs are dropped.

## What is modelled

Both tools share the packet layer, and it is modelled once:

- `Ccsds`: the 6-byte CCSDS primary header.
- `Modis`: the 12-byte MODIS secondary header and the checksum field in the last two payload
  bytes.
- `Checksum`: the 12-bit checksum over 12-bit samples packed two per three bytes.
- `SeqCount`: the arithmetic on 14-bit sequence counters.

The other modules:

- `ApidList`: pdsinfo's linked list of per-APID records, kept in ascending APID order. It is
  modelled as a sequence.
- `InfoSpec`: what pdsinfo's statistics mean, stated over the history of what it read.
- `InfoScan`: the main loop of pdsinfo, one pass at a time, as a function of the input bytes.
- `Info`: the class `PdsInfo`. It has the same variables as the main loop of pdsinfo. Its
  methods update them in place. The invariant `Valid()` ties those variables to the history
  in `InfoSpec`.
- `Calendar`: the integer part of pdsmerge's `julday`.
- `Window`: how pdsmerge checks its arguments and sets up its time window.
- `MergeSpec`: what the merge loop of pdsmerge reads, selects and writes.
- `MergeTurn`: one turn of the merge loop as a function (refill every input, scan for the
  oldest packet, drop its copies, let it go), and the whole run as the sequence of turns.
- `Merge`: the merge loop itself, as methods proved equal to `MergeSpec` and `MergeTurn`.

Input files are byte sequences with a read position. A read that would pass the end of the
file is a failed read. A header read that finds fewer than 6 bytes is treated as the end of
the file.

## Model

| member | source | states |
|---|---|---|
| Common.TruncDiv | pdsinfo.c:403-406 | C's integer division truncates toward zero: the remainder takes the sign of the dividend and is smaller than the divisor |
| Ccsds.DecodePriHdr | pdsinfo.c:542-570 | a header is rejected exactly when its version bits are not 0, and the error carries that version; an accepted header has version 0 and a payload length of bytes 4-5 plus one |
| Ccsds.PayloadFitsBuffer | pdsinfo.c:312-318 | every payload length a header can state (1 to 65536) fits the 100000-byte data buffer, so the buffer-overflow exit cannot be taken |
| Ccsds.DecodeEncode | pdsmerge.c:640-668 | decoding the bytes of a header gives that header back when its version is 0, and the version error otherwise |
| Ccsds.EncodeDecode | pdsmerge.c:640-668 | an accepted header loses no bit: re-encoding it gives back the 6 bytes it was read from |
| Modis.ChecksumField | pdsinfo.c:788-790 | the checksum field is a 12-bit value |
| Modis.DecodeModisHdr | pdsinfo.c:737-791 | the decoded checksum is the field in the last two payload bytes, and the day count is bytes 0-1 read big-endian |
| Modis.DecodeReadsOnlyHeaderAndChecksum | pdsmerge.c:684-738 | the decoded header depends only on the first 12 payload bytes and the last two |
| Modis.DecodeEncode | pdsmerge.c:684-738 | decoding a payload that starts with an encoded MODIS header gives that header back, with the payload's own checksum field |
| Modis.EncodeDecode | pdsinfo.c:737-787 | the decoder keeps every bit of the 12 header bytes: re-encoding the result gives them back |
| Checksum.Checksum12 | pdsinfo.c:853-894 | the checksum is a 12-bit value, and it is 0 when no samples are summed |
| Checksum.CalcChecksum12 | pdsinfo.c:853-894 | the byte-pair loop computes the sum of the first n 12-bit samples, shifted right by 4 and taken modulo 4096 (`(sum >> 4) & 0xFFF`) |
| Checksum.ChecksumReadsOnlyNeededBytes | pdsmerge.c:847-888 | the checksum of n samples depends only on the bytes those samples occupy |
| Checksum.SampleCountOfPayload | pdsinfo.c:347-349 | for a payload of at least 14 bytes, the sample count is 2(len-12)/3 - 1; those samples lie inside the payload and clear of its last byte |
| Checksum.SampleCountOfShortPayload | pdsmerge.c:400-403 | a 12-byte payload sums -1 samples and a 13-byte one 0, so both have checksum 0 |
| Checksum.ChecksumIgnoresChecksumField | pdsinfo.c:347-352 | the computed checksum does not read the checksum field: two payloads that differ only there have equal checksums |
| Checksum.LowBitFlipUnseen | pdsinfo.c:853-894 | the checksum does not detect every single-bit error: flipping the lowest bit of the third byte leaves it unchanged |
| Checksum.PayloadChecksum | pdsinfo.c:347-349 | the checksum both tools compare with the field is 12-bit, and it is 0 for payloads too short to hold a sample |
| Checksum.ComputePayloadChecksum | pdsmerge.c:400-403 | the merge tool's checksum call computes the same value as pdsinfo's |
| SeqCount.Missing | pdsinfo.c:293-305 | the gap between two counters is (cur - last - 1) mod 16384; it is 16383, the duplicate marker, exactly when the counters are equal, and last advanced by gap + 1 gives cur |
| SeqCount.PktDiff | pdsmerge.c:472-474 | the wrapped difference lies in -8192..8191, is congruent to a - b modulo 16384, and is 0 exactly when the counters are equal |
| SeqCount.PktDiffAntisymmetric | pdsmerge.c:472-481 | swapping the operands negates the wrapped difference, except at -8192 |
| SeqCount.ConsecutiveCountsMissNothing | pdsinfo.c:295-298 | a counter one ahead of the last, wrapping 16383 to 0, counts no missing packets |
| Calendar.EpochDayNumber | pdsmerge.c:773-777 | the integer Julian day of 1958-01-01 is 2436205, the MODIS reference date |
| Calendar.NextDay | pdsmerge.c:773-777 | inside a month of a Gregorian year, the next day has the next day number |
| Calendar.MonthLength | pdsmerge.c:763-777 | from the first of one month to the first of the next, the day number advances by the length of the month, with February 29 days exactly in leap years |
| Calendar.YearTurn | pdsmerge.c:763-777 | December has 31 days across the turn of the year |
| Calendar.LeapDay | pdsmerge.c:763-777 | February has 29 days in Gregorian leap years and 28 otherwise |
| Calendar.AfterEpoch | pdsmerge.c:773-777 | every date from 1958 on has a day number no earlier than the reference date |
| Window.MsOfDay | pdsmerge.c:214-217 | hour, minute and second make a whole number of milliseconds within one day |
| Window.Bound | pdsmerge.c:194-218 | a date argument is refused with 20 when it cannot be scanned and with 10 when a field is out of range; "-" gives the open bound; a scanned date gives the day `julday` counts from 1958-01-01, truncated, and the milliseconds of its hour, minute and second |
| Window.SetupWindow | pdsmerge.c:193-259 | the window is accepted exactly when both dates are accepted, the end is after the start and the APID is in 64..127; it is then the APID with the day and millisecond of each bound; a refused start gives its own code, then a refused end its own, and a window refused after both dates pass gives 10 |
| Window.EpochStart | pdsmerge.c:212-217 | 1958-01-01 at midnight starts the window at day 0, millisecond 0 |
| ApidList.FindApidInfo | pdsinfo.c:706-721 | finds the first record with the APID, and answers "none" exactly when the list holds no record with it |
| ApidList.AddApidInfo | pdsinfo.c:625-667 | splices the record in at one place; the list stays in ascending order and gains exactly that record; with no duplicates before and a new APID, there are none after |
| ApidList.Insert | pdsinfo.c:625-667 | inserting before the first larger APID keeps the order and the contents; at the head or the tail it is a prepend or an append |
| InfoSpec.LastCount | pdsinfo.c:309 | the stored last counter is -1 exactly when the APID was never seen, and is a 14-bit counter otherwise |
| InfoSpec.AppendSighting | pdsinfo.c:288-309 | counting a header adds one to the count of its own APID only, makes its counter that APID's last counter, and adds the gap from the previous last counter when the APID was seen before |
| InfoSpec.MarkLastInvalid | pdsinfo.c:351-355 | marking the header just counted as invalid adds one to the invalid count of its APID and changes nothing else |
| InfoSpec.Unseen | pdsinfo.c:293 | an APID never seen has no invalid packets, no last counter and no gap |
| InfoSpec.InvalidAtMostCount | pdsinfo.c:351-355 | an APID never has more invalid packets than packets |
| InfoSpec.MissingAccountsForAdvance | pdsinfo.c:293-305 | the missing count plus the packets seen, minus one, equals the advance from the first to the last counter, modulo 16384 |
| InfoSpec.OneMissing | pdsinfo.c:295-298 | counters 5 then 7 on one APID count one missing packet |
| InfoSpec.FirstIsEarliest | pdsinfo.c:358-378 | the first time reported is the time of a decoded packet, and no decoded packet is earlier |
| InfoSpec.LastIsLatest | pdsinfo.c:379-399 | the last time reported is the time of a decoded packet, and no decoded packet is later |
| InfoSpec.MissingSecsWithinSpan | pdsinfo.c:401-410 | for packets in time order, the seconds counted are at most the span from the first to the last packet, and fall short of it by less than one second per packet |
| InfoSpec.TalliesPartition | pdsinfo.c:412-441 | day, night and engineering tallies split packet types 0, 1 and 2/4; types 3, 5, 6 and 7 are counted nowhere |
| InfoSpec.TalliesCount | pdsinfo.c:412-441 | the six counters are the numbers of earth-view and other packets of types 0, 1 and 2 or 4 |
| InfoState.InsertUnseen | pdsinfo.c:277-286 | a fresh record spliced in for an unseen APID keeps every record a summary of the history |
| InfoState.CountInto | pdsinfo.c:288-309 | adding one to the count, adding the gap and storing the counter keeps the record equal to the summary of the history extended by the header |
| InfoState.MarkInto | pdsinfo.c:351-355 | adding one to the invalid counter keeps the record equal to the summary once the header is marked invalid |
| InfoScan.ReadPass | pdsinfo.c:219-259 | a pass either reads a short header and ends the input, or counts a header and reads its payload; a version error skips the stale packet length, and a skip that cannot be read falls through to count the stale header |
| InfoScan.ReadPayload | pdsinfo.c:311-331 | a payload read fails, with return value 5, exactly when the file holds less than the packet length; otherwise the payload is the next packet-length bytes, and a MODIS payload under 12 bytes stops the scan as undefined |
| InfoScan.ReadPassHeader | pdsinfo.c:234-259 | once 6 header bytes are read, the decode result decides the pass: skip or count the stale header on a version error, count the decoded header otherwise |
| InfoScan.UncheckedSight | pdsinfo.c:329 | packets outside APIDs 64..127 are never marked invalid |
| InfoScan.Scan | pdsinfo.c:218-443 | the main loop's reading from a position to its end: a failed read is never also undefined, and no more MODIS headers are decoded than headers counted |
| Info.LowerFirst | pdsinfo.c:358-378 | the nested comparisons replace the first time exactly when the packet is earlier |
| Info.RaiseLast | pdsinfo.c:379-399 | the nested comparisons replace the last time exactly when the packet is later |
| Info.PdsInfo.constructor | pdsinfo.c:159-192 | the loop starts with no records, first time 1000000/1000000/1000000, last and previous time zero, zero tallies and return value 0, and the invariant holds |
| Info.PdsInfo.CountHeader | pdsinfo.c:261-309 | finds or adds the record of the header's APID, counts the header and its gap, and keeps every record a summary of the headers counted |
| Info.PdsInfo.MarkInvalid | pdsinfo.c:351-355 | counts the current header as invalid and keeps the records a summary of the history |
| Info.PdsInfo.RecordModis | pdsinfo.c:357-441 | folds a decoded MODIS header into the first and last times, the missing seconds and the tallies, keeping them equal to their specification over the decoded headers |
| Info.PdsInfo.RecordTime | pdsinfo.c:357-410 | keeps the first, last and previous times and the missing seconds equal to their specification |
| Info.PdsInfo.RecordType | pdsinfo.c:412-441 | keeps the six tallies equal to their specification |
| Info.PdsInfo.Step | pdsinfo.c:218-443 | one iteration of the main loop moves the position and header as the pass reads them, records what the pass counts and decodes, and sets return value 5 on a failed read |
| Info.PdsInfo.ReadHeader | pdsinfo.c:219-259 | reads and decodes one header: either skips a stale packet, or leaves a header to count at the payload position |
| Info.PdsInfo.CountAndRead | pdsinfo.c:261-442 | counts the header and reads and checks its payload, as the pass specification says |
| Info.PdsInfo.ReadRest | pdsinfo.c:311-442 | reads the payload of a counted header, marks it invalid on a checksum mismatch, and folds in its MODIS header |
| Info.PdsInfo.ReadData | pdsinfo.c:311-326 | reads the payload, or fails with return value 5 when the file is too short |
| Info.PdsInfo.ReadModis | pdsinfo.c:329-442 | a MODIS payload updates the invalid count, the times and the tallies; any other payload changes none of them |
| Info.PdsInfo.CheckPayload | pdsinfo.c:346-355 | the header just counted is marked invalid exactly when the computed checksum differs from the field |
| Info.PdsInfo.Run | pdsinfo.c:218-506 | the main loop reads the whole file; the tool exits with 5 when no header was counted and with the return value otherwise, and stops undefined on a short MODIS payload |
| Info.PdsInfo.Loop | pdsinfo.c:218-443 | the loop records exactly the headers and MODIS headers that the scan of the file reads |
| MergeSpec.ReadPass | pdsmerge.c:323-372 | one pass of an input: end of file; exit 5 on an unreadable skip or payload; a skipped packet; or a kept packet taken from the input with the right APID, checksum and time |
| MergeSpec.Examine | pdsmerge.c:390-420 | a packet read in full is skipped or kept, or stops as undefined when its MODIS payload is too short; the position moves past it |
| MergeSpec.ExamineTakes | pdsmerge.c:390-422 | a kept packet is the bytes at its position, with the requested APID, a matching checksum and a time inside the window |
| MergeSpec.Advance | pdsmerge.c:323-423 | reading an input until it holds a packet or reaches the end gives a valid state that no longer needs a packet, or fails with 5 or undefined |
| MergeSpec.Refill | pdsmerge.c:323-423 | an input that holds a packet or is at its end is left alone; only an input that needs a packet can fail |
| MergeSpec.RefillAll | pdsmerge.c:321-425 | refilling every input in order keeps the number of inputs |
| MergeSpec.RefillAllEach | pdsmerge.c:321-425 | when every input refills, each is refilled on its own |
| MergeSpec.RefillAllStopsAt | pdsmerge.c:321-425 | the first failing input ends the refill: the inputs after it are not read |
| MergeSpec.RefillAllFirstFailure | pdsmerge.c:321-425 | a failed refill reports the error of the first input that fails, and all inputs before it refilled |
| MergeSpec.AdvanceShrinks | pdsmerge.c:323-423 | refilling an input that needs a packet consumes input |
| MergeSpec.ReleaseShrinks | pdsmerge.c:558 | releasing a held packet leaves less work for that input |
| MergeSpec.WritesIffAfter | pdsmerge.c:491-533 | the guard writes a packet exactly when it is strictly later than the last one selected, or at the same time with a counter ahead by the wrapped difference |
| MergeSpec.ReplayNotWritten | pdsmerge.c:491-533 | a packet with the same time and counter as the last one selected is never written |
| MergeSpec.WrittenAreSelected | pdsmerge.c:491-558 | only selected packets are written |
| MergeSpec.InOrderAllWritten | pdsmerge.c:491-558 | when the selected packets come in strictly increasing time, all of them are written |
| MergeSpec.GuardAllowsRegression | pdsmerge.c:491-539 | packets of days 10, 5 and 7 have the first and the third written, the third earlier than the first |
| MergeSpec.EpochPacketDropped | pdsmerge.c:174-175 | a first packet stamped at day 0 with counter 0 equals the guard's initial values and is not written |
| Merge.AdvanceSource | pdsmerge.c:323-423 | the read-until-valid loop of one input computes the refill specification |
| Merge.ReadOnce | pdsmerge.c:325-388 | reads one header and payload as the pass specification says |
| Merge.ExamineOnce | pdsmerge.c:390-422 | tests APID, checksum and window as the specification says |
| Merge.AdvanceAll | pdsmerge.c:321-425 | the loop over all inputs refills them in order and stops at the first failure |
| Merge.Compare | pdsmerge.c:444-481 | the nested comparisons order two held packets by time, then by wrapped counter difference, and call them equal exactly when time and counter agree |
| Merge.FindOldest | pdsmerge.c:427-485 | the scan loop computes the oldest scan: a packet is found exactly when some input holds one; no held packet is earlier than the one found; every other input keeps its packet or drops it as a copy of an earlier one; every later input holding the same time and counter as the one found drops it |
| Merge.Emit | pdsmerge.c:491-558 | the guard and the write extend the output to the packets written from the selection extended by one |
| Merge.PickOldest | pdsmerge.c:321-489 | one turn of the loop is `MergeTurn.TurnOf` (refill, oldest scan, let go): it fails as the refill does, or finds every input at its end, or selects a valid packet no refilled packet precedes and leaves less input pending |
| Merge.Merge | pdsmerge.c:319-583 | the exit, the selected packets and the final inputs are those of the run of turns from the initial inputs; the output is the concatenation of the packets the guard lets through from the selection; every selected packet comes from an input, with the APID, checksum and window asked for; exit 0 means every input was read to its end |
| MergeTurn.OldestScan | pdsmerge.c:427-485 | the scan over the first n inputs keeps their number and leads with one of those n |
| MergeTurn.OldestScanFacts | pdsmerge.c:427-489 | the scan finds a packet exactly when an input holds one, held by an input the scan leaves alone, with no held packet earlier; every input keeps its packet or drops it as a copy of one an earlier input still holds; every later copy of the packet found is dropped; nothing is found only when nothing changed |
| MergeTurn.ScanFrame | pdsmerge.c:427-485 | the scan changes only the inputs it has passed, each by dropping a copy, and never the input leading it |
| MergeTurn.ScanOrder | pdsmerge.c:427-485 | the scan finds a packet exactly when an input holds one, none held is earlier than the one leading, and later copies of it are dropped |
| MergeTurn.ScanLetsGo | pdsmerge.c:427-558 | letting go of the packet the scan finds leaves every other input with its packet or with a copy dropped, and every later copy of it dropped |
| MergeTurn.LetGoAfterScan | pdsmerge.c:478-558 | after a scan that kept input k and dropped only copies, letting go of k's packet leaves the inputs as the turn promises |
| MergeTurn.TurnFacts | pdsmerge.c:321-558 | a turn fails exactly when the refill fails, with 5 or undefined; it ends the loop only with every input at its end; otherwise the packet selected is the one some refilled input k held, which the read loop keeps and no held packet precedes; input k needs a packet again, every other input keeps its packet or dropped a copy, every later copy is dropped, every input stays valid and less input is pending |
| MergeTurn.Shrinks | pdsmerge.c:321-558 | a turn keeps every input valid and leaves less input pending |
| MergeTurn.AllEnded | pdsmerge.c:487-489 | when no input holds a packet after a refill, every input is at its end |
| MergeTurn.RunFacts | pdsmerge.c:319-583 | a run ends with 0, 5 or undefined; 0 only with every input read to its end; every packet it selects comes from an input, with the APID, checksum and window asked for |

## Left out

- File I/O, argument parsing and the diagnostic messages on stderr are left out. Inputs
  are byte sequences. Argument scanning is the `DateArg` datatype.
- The report printing of pdsinfo is left out, together with `caldat`. Also left out: the
  fractional part of `julday` (hours, minutes and the 0.000001 day) and the floating-point
  value it returns. The window only uses the integer day, which `Calendar.JulianDayNumber`
  gives for dates from 1958 on. `floor(365.25 * jy)` and `floor(30.6001 * jm)` are written
  as integer divisions, which agree with them on those dates.
- Allocation failures (exit 5 or 10) are left out. `Ccsds.PayloadFitsBuffer` shows that no
  decoded header reaches the `DATA_SIZE` buffer-overflow exits. Write errors of pdsmerge are
  left out: writing always succeeds.
- PdsInfo and Merge.Merge: the header structure before anything is decoded into it (an
  uninitialised stack struct in pdsinfo, malloc'd memory in pdsmerge) is taken as a `PriHdr`,
  so its `int` fields stay inside their bit widths. That excludes what an arbitrary stale
  `pkt_length` would cause when an input's first packet has a version error. pdsmerge's
  buffer-overflow exit 20 on the resync skip (pdsmerge.c:351) is not modelled. Neither is
  pdsinfo's unguarded resync read of `pkt_length + 1` bytes into `buf_data`
  (pdsinfo.c:245), which can run past the buffer. Nor is its buffer-overflow exit 20
  (pdsinfo.c:312) after the fall-through at pdsinfo.c:251.
- A partial header read (1 to 5 bytes left) is taken as the end of the file. This matches
  how the tools treat `feof` after a short `fread`.
- A MODIS payload shorter than 12 bytes is not modelled: both tools then decode bytes
  that are not part of the packet. pdsinfo's scan and the merge pass stop with the
  outcome `Undefined`.
- The sample count `(len - 12) / 1.5 - 1` is a double converted to `int`. It is
  computed over exact reals and truncated toward zero. Floating-point rounding is left out:
  the exact quotient is either a whole number or at least a third away from one.
- The header structure's contents before anything is decoded into them are a parameter:
  `uninitialised` in `PdsInfo`, `uninit` in `Merge.Merge`.
- Merge.Merge: the per-input header, MODIS header and buffer structs are values in a
  sequence that each turn rebuilds. Updating them in place is not modelled.
- The count of missing packets compares the counters with `>` (pdsinfo.c:295), and
  `SeqCount.Missing` does the same. Missing seconds use C's truncating division.
- pdsinfo's `long` accumulators and the `int` fields are unbounded integers. With a 64-bit
  `long`, no value the formats allow comes near their limits. With a 32-bit `long`,
  `(mhdr.days - prevday) * 86400000` (pdsinfo.c:403-405) overflows once two consecutive
  MODIS day fields differ by 25 or more. A packet with a failed checksum is still folded
  into the times, so this can happen. The model does not capture that overflow.
- Window.Bound: the day number is an unbounded integer. The C casts `x - MODIS_REF_DATE` to
  `int` (pdsmerge.c:213, 240), which overflows for years past about 5,881,000. The date
  fields are also unbounded, where `sscanf("%d")` reads `int`. So for such years the model
  gives a large positive day. It then refuses with 10 where the C keeps whatever the
  overflowing cast yields. `julday`'s double-precision rounding at those magnitudes is
  also left out.

