# Models and proofs for the DLCP chain simulator and its tooling

This project models, in Dafny, the self-contained parts of the PIC18 chain simulator and of the scripts
around it that carry real algorithms, and proves what they promise. Paths below are relative to the
repository's root. `dafny verify dfyconfig.toml` checks everything; each file is one module.

* **Intel HEX loader** (`HexRecord`, `HexText`, `HexImage`, `HexNewlines`, `HexErrors`, `HexTheorems`,
  `HexPrint`, `HexLax`). The strict record parser, the record printer beside it, the loader with its windows and presence
  bitmap as a class over arrays, and the lax Python reader. The loader accepts exactly the well-formed texts,
  whatever their line ends, reports the first error of others, agrees with a sparse last-write-wins map, is inverted by printing, and reads the
  same bytes as the lax reader. Record layout and type numbers are those of the Intel Hexadecimal Object File
  Format Specification (sections "General Record Format", "Data Record", "Extended Linear Address Record" and
  "End of File Record").
* **UART rings and captures** (`RxRing`, `RxFrames`, `UartCapture`, `UartRuns`). The two CONTROL injectors
  and the MAIN frame injector write simulated RAM in place and refine a queue; the capture readers work over
  a rolling history with absolute counters.
* **TBLPTR literal pass** (`Tblptr`, `TblptrTheorems`, `TblptrShapes`). The source-to-source rewrite of literal
  pointer loads: which windows it takes, same bytes, windows that never overlap, pointers that follow their
  labels, labels that are defined, and every other line untouched.
* **Progress ledger** (`LedgerText`, `Ledger`, `LedgerShapes`, `LedgerQuoting`, `LedgerFields`,
  `LedgerCommands`, `LedgerFiles`). The line parser, which reads back every ledger written in its layout, the
  in-place status writer, the date refresh, the status machine, and the commands as methods of a class over the
  file's text.
* **Epoch merge** (`StableSort`, `EpochMerge`, `EpochAlign`). The merge of stimuli and observations, the
  pairing of the two on a card, and when the merge gives back the order in which they happened.
* **Brace scanner** (`BraceScanner`, `BraceGrammar`). The scan of a model's answer for its last object, against
  a grammar of strings and objects.
* **Boot offsets and drift** (`BootOffset`, `ClockDomain`). The seed mixer and generator on 64-bit words,
  and the rounding of drifted tick counts.
* **Small machines** (`LcdScroll`, `PresetLink`, `Watchdog`).

Loops and objects of the source are methods and classes here; each is proved equal to a specification
function, and the theorems are about those functions, over all inputs and all runs.

## Where the code differs from its own description

The models follow the code.

* `inject_control_rx_bytes_inner` is documented to refuse at `>= 0x2C` pending bytes; the code refuses
  above `0x2C` (`crates/dlcp-sim-py/src/lib.rs:942-958`).
* The high-water injector does not look at the length of a burst. Its 15-byte warm-up burst
  (`crates/dlcp-sim-py/src/lib.rs:3952`, `:4001`) is taken at 33 to 44 pending bytes and overruns them
  (`RxRing.WarmupBurst`); the public entry at line 3913 takes any length. `RxRing.RingIsAQueue` says exactly
  which runs keep the ring a queue.
* `inject_rx_bytes_inner` cuts the burst length to 16 bits before it compares, so a burst of 65536 bytes
  would be taken by any ring (`RxRing.SixteenBitLengthLeak`). Its one caller passes three bytes
  (`crates/dlcp-sim-py/src/lib.rs:3112`), so this is not reached.
* The converter's line 708 asks for the first line of each target, but line 712 looks an address up in a
  dictionary keyed by line number. A target can so stay without an anchor (`TblptrTheorems.MissedAnchor`), and
  a target listed at two lines would get two; the listing holds lines that emit code, so the latter does not
  normally arise. `TblptrTheorems.OneAnchorPerTarget` says exactly when each target is anchored once, at its
  first line, and `TblptrTheorems.EveryTargetLineIsAnchored` exactly when no listed line of a target is passed
  over.
* The merge's comment says that a reset rewinds both streams at one boundary, so that epochs align. They
  align exactly when every rewind shows in both streams (`EpochAlign.MergeIsTrueOrder`); a stream that is
  silent until its tick has passed the old one hides it (`EpochAlign.SilentEventsMisplaced`).
* Byte identity of the TBLPTR pass fails for a low literal of more than eight bits
  (`TblptrTheorems.BytesArePreserved` says exactly when it holds).
* A reset clears the UART history and its totals but not the capture marks
  (`UartCapture.CaptureAfterReset`).
* Printing an image and loading it back gives the image only if its absent flash bytes are erased, as they
  are in every loaded image (`HexPrint.ImageRoundTrip`).
* When one name is the start of the other, the two scrolling names do not rest at the same offset unless
  the shorter has less than 16 characters (`LcdScroll.RestsAgreeExactly`).
* Rule 1 of the verify line's description, peeling, comes before rule 2, the first span. A line that starts
  with its quoted command and ends in another quoted word is peeled as if the two outer backticks were a
  pair, and a later span is taken for the command; `LedgerQuoting.QuotedCommandIsFound` says exactly when the
  quoted command is found.
* With two tasks under one id, a passing `advance` can leave the ledger as it was
  (`LedgerCommands.AdvanceMakesProgress` says exactly when it makes progress).
* `apply_drift` is documented to round ties away from zero; counts are not negative, so this is rounding
  ties up.

## Model

| member | source | states |
|---|---|---|
| HexRecord.DecodeInvertsEncode | crates/dlcp-sim/src/hex.rs:493-511 | the digits the printer writes are read back as the bytes they were written for |
| HexRecord.EncodeInvertsDecode | crates/dlcp-sim/src/hex.rs:418-472 | writing the decoded bytes of any digits gives those digits in upper case |
| HexRecord.DecodeBody | crates/dlcp-sim/src/hex.rs:418-430 | the decoding loop gives one byte for two digits, or the offset of the first byte that is no digit |
| HexRecord.Checksum | crates/dlcp-sim/src/hex.rs:441 | the wrapping 8-bit sum is the sum of all bytes modulo 256 |
| HexRecord.InterpretBytes | crates/dlcp-sim/src/hex.rs:432-462 | count, checksum and field checks in the source's order, with the errors it reports |
| HexRecord.ParseRecordLoop | crates/dlcp-sim/src/hex.rs:403-463 | the parser as it runs, errors and their order included |
| HexRecord.RecordBytesBalance | crates/dlcp-sim/src/hex.rs:493-511 | every printed record sums to zero modulo 256 |
| HexRecord.ParseInvertsRec | crates/dlcp-sim/src/hex.rs:403-511 | parsing a printed record gives the record back exactly when its data fits the length byte |
| HexRecord.AcceptedLineIsItsPrint | crates/dlcp-sim/src/hex.rs:403-511 | every accepted line is the printed form of its own parse, up to the case of the digits |
| HexRecord.OneWrongByteIsCaught | crates/dlcp-sim/src/hex.rs:432-452 | changing any one byte of an accepted record is refused, with which error |
| HexRecord.OneWrongDigitIsCaught | crates/dlcp-sim/src/hex.rs:403-452 | changing any one hex digit of an accepted line is refused, with which error |
| HexRecord.DigitsSpelled | crates/dlcp-sim/src/hex.rs:465-472 | the hex digits, in numbers |
| HexRecord.CaseDoesNotMatter | crates/dlcp-sim/src/hex.rs:403-472 | a line is read alike, errors included, with its digits in upper case |
| HexRecord.RefusalsTell | crates/dlcp-sim/src/hex.rs:403-439 | only a colon starts a record; a wrong count is reported with both counts |
| HexRecord.ReportedChecksumFits | crates/dlcp-sim/src/hex.rs:441-452 | the checksum reported as computed would have made the record valid |
| HexImage.ImageOfPut | crates/dlcp-sim/src/hex.rs:217-246 | storing a byte in its window is putting it in the sparse memory, presence included |
| HexImage.HexImage.constructor | crates/dlcp-sim/src/hex.rs:85-93 | an empty image is erased everywhere and present nowhere |
| HexImage.HexImage.ByteAt | crates/dlcp-sim/src/hex.rs:109-115 | a byte is given only where a record put one |
| HexImage.HexImage.WriteByte | crates/dlcp-sim/src/hex.rs:217-246 | a byte goes to the window of its address, or the image stays as it is and the error says why |
| HexImage.HexImage.WriteData | crates/dlcp-sim/src/hex.rs:139-162 | a data record puts its bytes one after the other, up to the first address outside the windows |
| HexImage.HexImage.Apply | crates/dlcp-sim/src/hex.rs:138-198 | what each record type does to the image and to the loader's variables |
| HexImage.HexImage.FromHexStr | crates/dlcp-sim/src/hex.rs:122-205 | the loader as it runs gives the image of the sparse memory, or the same first error |
| HexTheorems.OverlayLookup | crates/dlcp-sim/src/hex.rs:122-205 | a memory after any writes holds at each address the last byte written there, or what it held before |
| HexTheorems.LoadAcceptsExactly | crates/dlcp-sim/src/hex.rs:117-205 | a text loads if and only if every non-blank line is a record, the end record is the last one and the only one, and no data lies outside the windows; the memory is the overlay of its writes |
| HexTheorems.LastWriteWins | crates/dlcp-sim/src/hex.rs:109-246 | in a loaded image each byte is the last one any record put there, present exactly where some record did, erased elsewhere |
| HexNewlines.TrimEndCutsPadding | crates/dlcp-sim/src/hex.rs:127-132 | tabs, newlines, returns and spaces are cut off the end of a line, up to the last other byte |
| HexNewlines.LineEndsDoNotMatter | crates/dlcp-sim/src/hex.rs:122-205 | with a return put before every newline a text gives the same memory, or the same error at the same line |
| HexErrors.WindowsInNumbers | crates/dlcp-sim/src/hex.rs:217-246 | the four windows and the device ID, in addresses |
| HexErrors.FirstBadByte | crates/dlcp-sim/src/hex.rs:139-162 | a data record is refused for its first byte outside the windows, which the error names |
| HexErrors.ControlRecords | crates/dlcp-sim/src/hex.rs:163-198 | the cases in which a record that is no data is refused, with their errors, and what the others do |
| HexErrors.FirstErrorIsReported | crates/dlcp-sim/src/hex.rs:122-205 | the error of a text is the one of its first bad line, counted from one; good lines load exactly when one was the end record |
| HexPrint.LoadOfPrintedRecords | crates/dlcp-sim/src/hex.rs:490-523 | printing records one a line and loading them is applying them |
| HexPrint.ImageRoundTrip | crates/dlcp-sim/src/hex.rs:122-246 | printing a whole image and loading it gives the image back, bitmap included, exactly when its absent flash bytes are erased |
| HexPrint.LoadedImageRoundTrip | crates/dlcp-sim/src/hex.rs:122-246 | every image the loader makes survives a further print and load |
| HexText.SameNonBlankLines | scripts/sim_link_control_main_presets_ab.py:29-32 | where the lines are plain, Python's line cutting and stripping sees the lines that the strict loader sees |
| HexNewlines.PyLineEnds | scripts/sim_link_control_main_presets_ab.py:29 | Python ends a line at seven of the ASCII characters |
| HexNewlines.PyStripCuts | scripts/sim_link_control_main_presets_ab.py:30 | and strips ten of them from both ends |
| HexLax.StoreAll | scripts/sim_link_control_main_presets_ab.py:39-42 | the store loop puts the data bytes over the dictionary |
| HexLax.Apply | scripts/sim_link_control_main_presets_ab.py:39-48 | what each record type does in the lax reader |
| HexLax.ParseIntelHexLoop | scripts/sim_link_control_main_presets_ab.py:26-49 | the lax reader as it runs |
| HexLax.PyFieldsOfParsedLine | scripts/sim_link_control_main_presets_ab.py:35-38 | on a line the strict parser accepts, the lax reader cuts out the same fields |
| HexLax.LaxReaderAgrees | scripts/sim_link_control_main_presets_ab.py:26-49 | on every text the strict loader accepts the lax reader gives the same bytes |
| HexLax.LaxRefusals | scripts/sim_link_control_main_presets_ab.py:29-34 | the lax reader refuses what is not ASCII, and a first line without a colon |
| HexLax.LaxLineNeedsColon | scripts/sim_link_control_main_presets_ab.py:33-46 | a later line without a colon is refused too, or an end record before it has ended the reading |
| RxRing.StoreBytes | crates/dlcp-sim-py/src/lib.rs:4054-4058 | the store loop writes the bytes round the ring and returns the index after them |
| RxRing.ControlQueue | crates/dlcp-sim-py/src/lib.rs:4038-4050 | CONTROL's queue in addresses: 48 cells from 0x066 on, read index in 0x098, write index in 0x099 |
| RxRing.MainQueue | crates/dlcp-sim-py/src/lib.rs:2520-2544 | MAIN's queue in addresses: 192 cells from 0x200 on, indices in 0x0C6 and 0x0C7 |
| RxRing.StoredAppends | crates/dlcp-sim-py/src/lib.rs:4054-4058 | storing where there is room leaves the unread bytes alone and adds the new ones behind them |
| RxRing.InjectedAppendsExactly | crates/dlcp-sim-py/src/lib.rs:4038-4061 | a burst stored in any ring is appended to its queue if and only if it fits beside the unread bytes |
| RxRing.InjectRxBytes | crates/dlcp-sim-py/src/lib.rs:4038-4061 | the injector takes a burst by its 16-bit length and then writes ring and index; a refused burst changes nothing |
| RxRing.InjectControlRxBytes | crates/dlcp-sim-py/src/lib.rs:947-971 | the same for the injector with the fixed mark |
| RxRing.TakenBurstIsAppended | crates/dlcp-sim-py/src/lib.rs:4038-4061 | a taken burst is appended and nothing but the ring is written, exactly for bursts below 65536 bytes |
| RxRing.TakesExactlyWhatFits | crates/dlcp-sim-py/src/lib.rs:4038-4061 | below that length a burst is taken if and only if it is no longer than 47 minus the unread bytes |
| RxRing.SixteenBitLengthLeak | crates/dlcp-sim-py/src/lib.rs:4038-4061 | a burst of 65536 bytes is taken by any ring and is not appended |
| RxRing.LooselyTakenBurstIsAppended | crates/dlcp-sim-py/src/lib.rs:947-971 | what the other injector takes is appended exactly when it fits |
| RxRing.ShortBurstsAgree | crates/dlcp-sim-py/src/lib.rs:947-971 | bursts of at most three bytes taken there are taken by the safe injector with the same memory; a fourth byte may not be |
| RxRing.ConsumeTakesOldest | crates/dlcp-sim-py/src/lib.rs:4038-4061 | one step of the read index takes the oldest unread byte |
| RxRing.RingIsAQueue | crates/dlcp-sim-py/src/lib.rs:947-971 | from any RAM, over any run of injections and reads, the bytes read and then the bytes unread are at every moment those unread at the start and then the bursts taken, if and only if each taken burst had the room |
| RxRing.ShortBurstsAreRoomy | crates/dlcp-sim-py/src/lib.rs:947-971 | bursts below 65536 bytes and, for the high-water injector, of at most three bytes always have it |
| RxRing.WarmupBurst | crates/dlcp-sim-py/src/lib.rs:3952-4001 | the 15-byte warm-up burst is taken at up to 44 pending bytes and appended at up to 32 |
| RxFrames.OfferFrame | crates/dlcp-sim-py/src/lib.rs:2543-2556 | one frame is stored whole when the limit leaves room for it, and not at all otherwise |
| RxFrames.InjectMainFrames | crates/dlcp-sim-py/src/lib.rs:2515-2564 | the new queue is the old one and then exactly the accepted frames, each whole; delivered plus overrun is the total length; only the ring and its write index are written |
| RxFrames.OccupancyIsBounded | crates/dlcp-sim-py/src/lib.rs:2515-2564 | the queue never grows past the larger of the clamped limit and where it already was |
| RxFrames.LeftOutExactly | crates/dlcp-sim-py/src/lib.rs:2543-2556 | a frame is left out exactly when it has bytes and the queue before it, with it, passes the limit |
| RxFrames.ClampedLimit | crates/dlcp-sim-py/src/lib.rs:2539 | the limit asked for is held between 1 and 191 |
| UartCapture.Recorder.constructor | crates/dlcp-sim-py/src/lib.rs:1474-1510 | an empty history, all counts zero |
| UartCapture.Recorder.RecordByte | crates/dlcp-sim-py/src/lib.rs:1474-1501 | recording keeps the newest records up to the cap, counts the dropped ones, and counts every byte of its core |
| UartCapture.Recorder.Reset | crates/dlcp-sim-py/src/lib.rs:1474-1479 | a reset empties the history and the counts |
| UartCapture.CapturePoint.Mark | crates/dlcp-sim-py/src/lib.rs:3295-3298 | a mark stores the absolute count |
| UartCapture.CapturePoint.SinceLastCapture | crates/dlcp-sim-py/src/lib.rs:3306-3323 | a capture returns the newest matching bytes of the history, as many as the counts differ by or are left, and marks |
| UartCapture.Matching | crates/dlcp-sim-py/src/lib.rs:3308-3314 | the history's bytes of one core, in order |
| UartCapture.CaptureIsSurvivingDelta | crates/dlcp-sim-py/src/lib.rs:3192-3237 | a capture is the part of the log since the mark that the history still holds |
| UartCapture.SaturationIsExact | crates/dlcp-sim-py/src/lib.rs:3201-3216 | the difference of two sticking 64-bit counts is the number of new bytes exactly while the count has not stuck or nothing is new |
| UartRuns.CaptureOfTracked | crates/dlcp-sim-py/src/lib.rs:3192-3220 | a reader whose counts follow a queue gets the longest suffix of what it is owed that survives |
| UartRuns.CaptureAfterRun | crates/dlcp-sim-py/src/lib.rs:3192-3237 | the same after any interleaving of appends, evictions, marks and captures |
| UartRuns.CapturesAreExactlyOnce | crates/dlcp-sim-py/src/lib.rs:3295-3323 | whatever was lost before a mark, over any run after it that evicts none of the bytes owed since, the captures are the bytes since the mark, in order and none twice, up to those still owed |
| UartRuns.LossBeforeMark | crates/dlcp-sim-py/src/lib.rs:1474-1501 | a run in which a byte is evicted before the mark and none after it |
| UartRuns.RecordIsAppend | crates/dlcp-sim-py/src/lib.rs:1474-1501 | recording a byte is an append of the view, at the cap after an eviction |
| UartRuns.MarkIsMark | crates/dlcp-sim-py/src/lib.rs:3295-3298 | marking is the mark of the view |
| UartRuns.CaptureIsCapture | crates/dlcp-sim-py/src/lib.rs:3306-3323 | capturing is the capture of the view |
| UartCapture.CaptureAfterReset | crates/dlcp-sim-py/src/lib.rs:3009-3017 | after a reset a capture gives the bytes since the reset exactly when the stale mark is zero or there are none |
| Tblptr.TargetBytes | scripts/convert_v16b_asm_to_gpasm.py:644-683 | the bytes of a combined target are the two literals' bytes exactly when the low literal's upper bits are bits of the high one |
| Tblptr.FreshNamesDiffer | scripts/convert_v16b_asm_to_gpasm.py:546-606 | new anchors of different targets have different names |
| Tblptr.NewTargetsOfSites | scripts/convert_v16b_asm_to_gpasm.py:599-625 | the new labels are the targets of the matched windows that no label of the source names |
| Tblptr.CollectAllLabelAddresses | scripts/convert_v16b_asm_to_gpasm.py:574-582 | the first label defined at each address |
| Tblptr.LabelForTarget | scripts/convert_v16b_asm_to_gpasm.py:599-606 | a label of the source, else one name per address, entered in the pool once |
| Tblptr.MatchSite | scripts/convert_v16b_asm_to_gpasm.py:630-687 | which four lines match, which of them load the halves, and their target |
| Tblptr.ScanSites | scripts/convert_v16b_asm_to_gpasm.py:627-698 | the scan loop replaces the loads of every window it steps over and fills the pool |
| Tblptr.FindAnchorLines | scripts/convert_v16b_asm_to_gpasm.py:708-713 | the lines that get an anchor, with the lookup of an address among line numbers |
| Tblptr.Replace | scripts/convert_v16b_asm_to_gpasm.py:718-720 | the replacements are put in their lines and no others |
| Tblptr.InsertAnchors | scripts/convert_v16b_asm_to_gpasm.py:722-730 | inserting from the bottom up puts each anchor right above its line |
| Tblptr.RewriteTblptrLiterals | scripts/convert_v16b_asm_to_gpasm.py:585-732 | the whole pass as it runs |
| TblptrTheorems.WindowsAreDisjoint | scripts/convert_v16b_asm_to_gpasm.py:630-698 | no line lies in two matched windows |
| TblptrShapes.OrBits | scripts/convert_v16b_asm_to_gpasm.py:654-658 | the target joins the two literals bit by bit |
| TblptrShapes.CellsHighFirst | scripts/convert_v16b_asm_to_gpasm.py:669-695 | the RAM pair 0x2A, 0x29 is a window exactly for even targets from 0x4C up to below 0x1C00 |
| TblptrShapes.CellsLowFirst | scripts/convert_v16b_asm_to_gpasm.py:669-695 | the same with the low cell first |
| TblptrShapes.PointerHighFirst | scripts/convert_v16b_asm_to_gpasm.py:651-663 | a load of the table pointer is a window exactly for targets from 0x4C up to below 0x7800 |
| TblptrShapes.PointerLowFirst | scripts/convert_v16b_asm_to_gpasm.py:651-663 | the same with the low half first |
| TblptrShapes.EightBitCells | scripts/convert_v16b_asm_to_gpasm.py:608-698 | for literals a and b of eight bits: the RAM pair is a window exactly for 0x4C <= a * 256 + b < 0x1C00 and even b |
| TblptrShapes.EightBitPointer | scripts/convert_v16b_asm_to_gpasm.py:608-698 | the table pointer exactly for 0x4C <= a * 256 + b < 0x7800 |
| TblptrShapes.NoOtherWindow | scripts/convert_v16b_asm_to_gpasm.py:629-696 | no other four lines are a window |
| TblptrShapes.FreshNameSpelled | scripts/convert_v16b_asm_to_gpasm.py:604 | a new anchor is named by its address in four upper-case digits, unless it is a known table |
| TblptrShapes.OtherLinesStay | scripts/convert_v16b_asm_to_gpasm.py:718-736 | the output is the source with the loads of windows rewritten and anchors between: every other line is as it was, in its place |
| TblptrShapes.FirstLabelNames | scripts/convert_v16b_asm_to_gpasm.py:574-582 | the first line that labels an address names it |
| TblptrShapes.LoadedNameIsDefined | scripts/convert_v16b_asm_to_gpasm.py:599-606 | the label that a rewritten window loads is defined in the output, at the target, exactly when the source labels the target or a line at it got an anchor |
| TblptrTheorems.EveryWindowIsReached | scripts/convert_v16b_asm_to_gpasm.py:627-698 | every window that fits the patterns is rewritten, unless it starts inside an earlier one that is |
| TblptrTheorems.BytesArePreserved | scripts/convert_v16b_asm_to_gpasm.py:585-732 | wherever the labels are at their targets, the rewritten program assembles to the same bytes if and only if no low literal runs into its high one |
| TblptrTheorems.EightBitLiteralsFit | scripts/convert_v16b_asm_to_gpasm.py:644-683 | literals of eight bits never do |
| TblptrTheorems.WideLiteralDoesNotFit | scripts/convert_v16b_asm_to_gpasm.py:561-683 | a wider low literal that the pattern lets through and that does |
| TblptrTheorems.RewrittenWindowLoadsLabel | scripts/convert_v16b_asm_to_gpasm.py:685-732 | in the output of the pass, under any placement of the labels, a rewritten window with the anchors among its lines loads exactly its label's 16-bit address, whatever the machine held before |
| TblptrTheorems.LiteralWindowLoadsTarget | scripts/convert_v16b_asm_to_gpasm.py:644-683 | the literal window loads its target exactly when its literals fit |
| TblptrTheorems.PlacementExists | scripts/convert_v16b_asm_to_gpasm.py:585-606 | some placement puts every chosen label at its target exactly when no two targets share a name |
| TblptrTheorems.ClashTakesExistingLabel | scripts/convert_v16b_asm_to_gpasm.py:599-606 | two targets can share a name only through a label of the source |
| TblptrTheorems.EveryTargetLineIsAnchored | scripts/convert_v16b_asm_to_gpasm.py:708-713 | exactly the listed lines of new targets get an anchor if and only if no target is the number of an earlier such line |
| TblptrTheorems.OneAnchorPerTarget | scripts/convert_v16b_asm_to_gpasm.py:708-713 | each target is anchored once, at its first listed line, exactly when among the listed lines of targets the first ones are those whose address is not the number of an earlier first one |
| TblptrTheorems.MissedAnchor | scripts/convert_v16b_asm_to_gpasm.py:708-713 | a listing in which a target stays without an anchor |
| LedgerText.JoinInvertsSplit | scripts/sim_rewrite_next.py:188-197 | the lines of a text, breaks kept, join to the text |
| LedgerText.SplitOfReplaced | scripts/sim_rewrite_next.py:188-197 | replacing a line by one with the same break and joining gives a text with exactly those lines |
| LedgerText.SubStatusOfTaskLine | scripts/sim_rewrite_next.py:190-195 | on a task line the first bracketed status, the one that is replaced, is the task's |
| Ledger.ParseLedgerLoop | scripts/sim_rewrite_next.py:146-178 | the parser over the lines of a text |
| Ledger.CollectTasks | scripts/sim_rewrite_next.py:149-178 | the parser's loop with its task in hand |
| Ledger.ParsedTaskLine | scripts/sim_rewrite_next.py:150-161 | every parsed task names a line that is a task line |
| Ledger.SubStatusFlips | scripts/sim_rewrite_next.py:181-197 | rewriting a task line keeps its break and changes its status alone, as the parser reads it |
| Ledger.WriteThenParse | scripts/sim_rewrite_next.py:146-197 | writing a status and parsing again gives the same tasks with that one status set, and every other line as it was |
| LedgerShapes.ReadInvertsWrite | scripts/sim_rewrite_next.py:50-52 | a task line written from a status, an identifier and a title is read back as these |
| LedgerShapes.EveryTaskLineIsWritten | scripts/sim_rewrite_next.py:50-52 | and every line read as a task line is one so written |
| LedgerShapes.ParsedTasksAreBlocks | scripts/sim_rewrite_next.py:146-178 | the tasks are the task lines in order, each with the last verify, artifact and notes lines between it and the next one |
| LedgerQuoting.StripQuotingLoop | scripts/sim_rewrite_next.py:104-121 | the peeling loop and the cut as they run |
| LedgerQuoting.QuotingIsIdempotent | scripts/sim_rewrite_next.py:82-121 | cutting a cut command again gives the same |
| LedgerQuoting.QuotedCommandIsFound | scripts/sim_rewrite_next.py:82-121 | a quoted command is found exactly when prose stands before it, or what follows it does not end in a backtick, or quotes the command again |
| LedgerQuoting.WrongSpanExample | scripts/sim_rewrite_next.py:106-120 | a line whose quoted command is not what is cut out |
| LedgerFields.VerifyIsRead | scripts/sim_rewrite_next.py:53-166 | a line of two spaces, dash, verify is read as its command, markdown quoting stripped |
| LedgerFields.QuotedVerifyIsRead | scripts/sim_rewrite_next.py:53-166 | a quoted command is read without its quotes |
| LedgerFields.ArtifactIsRead | scripts/sim_rewrite_next.py:54-170 | an artifact line is read as its path, stripped |
| LedgerFields.NotesIsRead | scripts/sim_rewrite_next.py:55-174 | a notes line is read as its text, stripped |
| LedgerFields.FieldLinesAreWritten | scripts/sim_rewrite_next.py:53-174 | every line read as a field has one of these three shapes |
| LedgerFields.StripCutsBlanks | scripts/sim_rewrite_next.py:156-174 | white space around a value is no part of it |
| LedgerFields.LedgerRoundTrip | scripts/sim_rewrite_next.py:145-178 | a whole ledger written in its layout, with any line end, is read back as the tasks it was written from, each at its line |
| LedgerCommands.UpdateKeepsTasks | scripts/sim_rewrite_next.py:200-208 | refreshing the date never changes a parsed task |
| LedgerCommands.UpdateStoresDate | scripts/sim_rewrite_next.py:200-208 | after a refresh the first dated line is the same one and holds the new date |
| LedgerCommands.DateIsSpelled | scripts/sim_rewrite_next.py:200-208 | a date is four digits, two and two, with dashes between |
| LedgerCommands.RefreshIsSpelled | scripts/sim_rewrite_next.py:200-208 | the first line that starts with the words and a date is redated, and everything else stays |
| LedgerFiles.FindStatus | scripts/sim_rewrite_next.py:239-250 | the search finds the first task with the status |
| LedgerCommands.FirstWithIsFirst | scripts/sim_rewrite_next.py:239-250 | no task before the one found has the status |
| LedgerCommands.TargetIsFirst | scripts/sim_rewrite_next.py:239-270 | an advance works on the first task in progress, or with none on the first pending one |
| LedgerCommands.ManualIsTheWord | scripts/sim_rewrite_next.py:75-79 | a task is manual exactly when its command is that word, in letters of either size |
| LedgerCommands.AdvanceCloses | scripts/sim_rewrite_next.py:272-325 | a command that fails closes no task, forced or not; one that passes, or force where there is none, closes the first task with the id |
| LedgerFiles.FindId | scripts/sim_rewrite_next.py:412-420 | the search finds the first task with the id |
| LedgerFiles.SetStatusIsPut | scripts/sim_rewrite_next.py:156-161 | parsed tasks are on different lines, so writing a line is writing one task |
| LedgerFiles.UpdateKeepsLines | scripts/sim_rewrite_next.py:200-208 | refreshing the date keeps every line that is no date line, byte for byte |
| LedgerFiles.RewriteIsOneStatus | scripts/sim_rewrite_next.py:268-270 | a rewrite sets one status and touches at most one task line and one date line |
| LedgerFiles.LedgerFile.Rewrite | scripts/sim_rewrite_next.py:268-270 | the new text is the old one with one status written and the date refreshed: one task changes, and every line but the task's and a date line is kept |
| LedgerFiles.LedgerFile.CmdAdvance | scripts/sim_rewrite_next.py:253-318 | the command steps the parsed ledger as the status machine does, through the rewrites of its text and no others; every line but task lines and date lines is kept |
| LedgerFiles.LedgerFile.CmdBlock | scripts/sim_rewrite_next.py:412-430 | the command blocks the first task with the id by one rewrite of the text; an unknown id changes nothing |
| LedgerFiles.AdvanceTextIsAdvance | scripts/sim_rewrite_next.py:253-318 | the text that the command leaves parses to the next state of the machine, and only task lines and date lines differ |
| LedgerFiles.BlockTextIsBlock | scripts/sim_rewrite_next.py:412-422 | the same for the block command |
| LedgerCommands.AdvanceMakesProgress | scripts/sim_rewrite_next.py:253-318 | an advance that passes lowers twice the pending plus the in-progress tasks exactly when its task is not shadowed by a finished or blocked one with its id |
| LedgerCommands.ShadowedAdvanceIsStuck | scripts/sim_rewrite_next.py:311-316 | a task shadowed by a finished one makes a passing advance change nothing |
| LedgerCommands.ShadowedExample | scripts/sim_rewrite_next.py:311-316 | such a ledger |
| LedgerCommands.StepKeepsTasks | scripts/sim_rewrite_next.py:253-318 | a step changes statuses only, never reopens work, and an advance never takes a task out of done |
| LedgerCommands.RunKeeps | scripts/sim_rewrite_next.py:253-318 | over any run at most one task is in progress, the weight never rises, and with distinct ids the closing advances and the weight left never exceed the weight at the start |
| LedgerCommands.RunKeepsDone | scripts/sim_rewrite_next.py:253-318 | over any run of advances a finished task stays finished |
| LedgerCommands.OpenMeansTarget | scripts/sim_rewrite_next.py:258-266 | there is a task to advance exactly while some task is pending or in progress |
| LedgerCommands.AdvancesFinish | scripts/sim_rewrite_next.py:253-318 | with distinct ids, advances that pass finish the ledger within its weight |
| StableSort.SortPermutes | scripts/sim_exploratory_oracle_format.py:375 | sorting loses, doubles and makes up nothing |
| StableSort.SortOrders | scripts/sim_exploratory_oracle_format.py:375 | sorting orders |
| StableSort.SortKeepsPartExactly | scripts/sim_exploratory_oracle_format.py:375 | any part of the list comes out of a stable sort as it went in exactly when it was in order |
| EpochMerge.StampEventsLoop | scripts/sim_exploratory_oracle_format.py:358-366 | the event loop stamps each event with its epoch and carried tick |
| EpochMerge.StampObsLoop | scripts/sim_exploratory_oracle_format.py:367-374 | the observation loop does so with the observation's tick and position |
| EpochMerge.MergeLoop | scripts/sim_exploratory_oracle_format.py:345-376 | the merge as it runs |
| EpochMerge.EventStampAt | scripts/sim_exploratory_oracle_format.py:358-366 | an event without a tick has the tick and epoch of the event before it, and a lower tick starts a new epoch |
| EpochMerge.ObsStampAt | scripts/sim_exploratory_oracle_format.py:367-374 | the same for observations, which are numbered |
| EpochMerge.TicklessStaysWithItsEvent | scripts/sim_exploratory_oracle_format.py:306-376 | no observation comes between an event and the tickless event after it |
| EpochMerge.MergeKeepsStreams | scripts/sim_exploratory_oracle_format.py:345-376 | the merge keeps observations in write order and events in id order, rewinds or not |
| EpochMerge.MergePermutes | scripts/sim_exploratory_oracle_format.py:345-376 | the merge holds exactly the events and the observations, each as often as its stream does |
| EpochMerge.EventBeforeObs | scripts/sim_exploratory_oracle_format.py:350-376 | an event stands before an observation exactly when it is not later in epoch and tick; the event is first on a tie |
| EpochMerge.NoRewindIsRawSort | scripts/sim_exploratory_oracle_format.py:356-357 | when neither stream's ticks go back, the merge is the sort by tick, kind and number |
| EpochMerge.RawSortKeepsObsExactly | scripts/sim_exploratory_oracle_format.py:321-329 | without epochs the observations would keep their order exactly when their clock never goes back |
| EpochMerge.EpochCountsRewinds | scripts/sim_exploratory_oracle_format.py:330-342 | the last observation's epoch is the number of rewinds the card warns of, plus one if the first tick is negative |
| EpochAlign.OrderIsUnique | scripts/sim_exploratory_oracle_format.py:375 | two orders of the same streams by epoch, tick, kind and number are one |
| EpochAlign.MergeIsStamped | scripts/sim_exploratory_oracle_format.py:345-376 | the merge gives an order of both streams back exactly when the stamps along it are in order |
| EpochAlign.MergeIsTrueOrder | scripts/sim_exploratory_oracle_format.py:350-357 | for any order of stimuli and observations, ties aside, the merge of the two streams is that order if and only if every rewind of the clock shows in both streams |
| EpochAlign.SilentEventsMisplaced | scripts/sim_exploratory_oracle_format.py:350-357 | an event stream that hides a rewind has its stimulus placed before the reset |
| EpochMerge.SessionEventsAreTheSessions | scripts/sim_exploratory_oracle_format.py:318-320 | a session's events are the log's with that session, each as often |
| EpochMerge.SessionObsAreTheSessions | scripts/sim_exploratory_oracle_format.py:320 | a session's observations are the log's with that session, in write order |
| EpochMerge.RenderBlocks | scripts/sim_exploratory_oracle_format.py:452-522 | the card's loop collects pending stimuli and flushes them at each observation |
| EpochMerge.BlocksLoseNothing | scripts/sim_exploratory_oracle_format.py:452-522 | the blocks, one per observation, and the stimuli after the last one are all the stimuli in merge order |
| EpochMerge.BlocksUpTo | scripts/sim_exploratory_oracle_format.py:452-522 | the blocks up to an observation hold exactly the stimuli before it |
| EpochMerge.CardShowsEveryStimulusOnce | scripts/sim_exploratory_oracle_format.py:313-522 | a card shows every stimulus of its session once, in the order of the ids, whatever the ticks |
| EpochMerge.WhatACardShows | scripts/sim_exploratory_oracle_format.py:80-86 | a card shows the events of its session that are none of the five set-up actions, and no others |
| BootOffset.MixUndone | crates/dlcp-sim/src/boot_offset.rs:85-90 | for a fixed seed the mixer has a left inverse |
| BootOffset.UnmixUndone | crates/dlcp-sim/src/boot_offset.rs:85-90 | and a right inverse |
| BootOffset.MixSeedIsInjective | crates/dlcp-sim/src/boot_offset.rs:82-90 | different cores have different mixed states |
| BootOffset.XorshiftPermutes | crates/dlcp-sim/src/boot_offset.rs:92-100 | the generator's step permutes the non-zero words, never gives zero, and sends zero where it sends one |
| BootOffset.ShiftIsInjective | crates/dlcp-sim/src/boot_offset.rs:94-99 | the three shifts lose nothing |
| BootOffset.XorshiftCollides | crates/dlcp-sim/src/boot_offset.rs:92-100 | zero and one are its only collision |
| BootOffset.ResolveInRange | crates/dlcp-sim/src/boot_offset.rs:52-79 | an offset lies in its range; only an empty range gives none |
| BootOffset.FullRangeCollision | crates/dlcp-sim/src/boot_offset.rs:52-100 | over the full range two cores share an offset exactly when their mixed states are zero and one |
| BootOffset.EverySeedHasOneCollision | crates/dlcp-sim/src/boot_offset.rs:52-100 | every seed has such a pair of cores |
| BootOffset.FullRangeReaches | crates/dlcp-sim/src/boot_offset.rs:52-100 | over the full range every offset but zero is some core's, and zero is none's |
| BootOffset.FixedIsForAll | crates/dlcp-sim/src/boot_offset.rs:54 | a fixed offset is every core's |
| BootOffset.RangeReaches | crates/dlcp-sim/src/boot_offset.rs:52-79 | every value of any range is some core's offset, but for zero of the full range |
| ClockDomain.WithDriftPpm | crates/dlcp-sim/src/clock.rs:59-68 | a domain is built exactly for drifts of at most 100000 parts per million either way |
| ClockDomain.DriftIsNearest | crates/dlcp-sim/src/clock.rs:70-101 | drift gives the nearest integer to the scaled count, ties up, clamped to 64 bits |
| ClockDomain.DriftInNumbers | crates/dlcp-sim/src/clock.rs:70-101 | below the 64-bit limit a drifted count is within half a tick of the count times one million plus the drift, over one million |
| ClockDomain.DriftIsMonotone | crates/dlcp-sim/src/clock.rs:85-101 | drift is monotone in the count and in the drift |
| ClockDomain.ChunksDriftTogether | crates/dlcp-sim/src/clock.rs:85-101 | k chunks drifted one by one and their sum drifted at once differ by at most half of k + 1 ticks, unless clamped |
| LcdScroll.Sanitize | scripts/preset_filename_lcd_mockup.py:41-54 | the longest printable start of a name |
| LcdScroll.DivergenceIndex | scripts/preset_filename_lcd_mockup.py:57-69 | the first index where two names differ, an end counting as a difference; none exactly for equal names |
| LcdScroll.DivergenceIsUnique | scripts/preset_filename_lcd_mockup.py:57-69 | two names have one such index |
| LcdScroll.ScrollState.constructor | scripts/preset_filename_lcd_mockup.py:89-107 | where the machine rests and which way it scrolls |
| LcdScroll.ScrollState.DoTick | scripts/preset_filename_lcd_mockup.py:113-126 | one tick of the machine and what it shows |
| LcdScroll.StartIsAtRest | scripts/preset_filename_lcd_mockup.py:89-107 | a name longer than the row rests inside it and travels at least half of what is hidden |
| LcdScroll.CycleAt | scripts/preset_filename_lcd_mockup.py:113-126 | offset and pause at every tick of a cycle |
| LcdScroll.CycleReturns | scripts/preset_filename_lcd_mockup.py:113-126 | the machine is back at rest after exactly two pauses, the travel and one tick, and never before |
| LcdScroll.RunIsPeriodic | scripts/preset_filename_lcd_mockup.py:113-126 | every later tick repeats one of the first cycle |
| LcdScroll.OffsetsStayInside | scripts/preset_filename_lcd_mockup.py:113-126 | over any run the offset stays between the two ends and inside the name |
| LcdScroll.EveryOffsetIsVisited | scripts/preset_filename_lcd_mockup.py:72-126 | every offset between the ends is shown in each cycle |
| LcdScroll.DiffColumns | scripts/preset_filename_lcd_mockup.py:149-150 | exactly the columns in which two rows differ, in order |
| LcdScroll.DivergenceAtRest | scripts/preset_filename_lcd_mockup.py:81-100 | names that differ inside both rest alike at max(0, d - 15), and their rows first differ where the names do |
| LcdScroll.RestsAgreeExactly | scripts/preset_filename_lcd_mockup.py:94-96 | the two rest alike exactly when they differ inside both or in the first 16 columns; else they rest one column apart |
| LcdScroll.RestsAtAnEnd | scripts/preset_filename_lcd_mockup.py:89-107 | without a divergence a long name rests on its first 16 characters, or tail first on its last 16 |
| LcdScroll.ScrollsToFartherEnd | scripts/preset_filename_lcd_mockup.py:101-107 | the machine scrolls to the end farther from its rest, on a tie to the tail |
| LcdScroll.ShortNameStands | scripts/preset_filename_lcd_mockup.py:109-116 | a name that fits the row never moves, and is filled with spaces |
| LcdScroll.NameIsCut | scripts/preset_filename_lcd_mockup.py:41-54 | a name ends before its first character outside printable ASCII |
| PresetLink.TableIsMapped | scripts/sim_link_control_main_presets_ab.py:100-109 | the remap sends the whole table to the bank of the preset |
| PresetLink.UploadLands | scripts/sim_link_control_main_presets_ab.py:100-139 | a table has 2560 bytes and needs its whole bank, at 0x5600 or at 0x4A00 by the preset; what of it lies inside the flash is put there, and nothing else is touched |
| PresetLink.RemapMovesTheTable | scripts/sim_link_control_main_presets_ab.py:100-109 | under preset B the remap moves 0x5600 to 0x5FFF down by 0xC00, and no other 24-bit address; under A none |
| PresetLink.RouteReaches | scripts/sim_link_control_main_presets_ab.py:94-98 | a route of high nibble B reaches the units of the address in its low nibble, with zero all; no other low byte reaches any |
| PresetLink.FrameSetsPreset | scripts/sim_link_control_main_presets_ab.py:111-129 | command 0x20 sets the preset of the units it reaches to the lowest data bit; anything else is only counted |
| PresetLink.FromMemory | scripts/sim_link_control_main_presets_ab.py:86-92 | a unit's flash is erased but for the bytes of the file |
| PresetLink.FlashIsImage | scripts/sim_link_control_main_presets_ab.py:86-92 | on a text the strict loader accepts, it is the loader's flash |
| PresetLink.MainUnitSim.constructor | scripts/sim_link_control_main_presets_ab.py:75-92 | a unit starts in preset A with all counters zero |
| PresetLink.MainUnitSim.DoSetPreset | scripts/sim_link_control_main_presets_ab.py:121-129 | the preset is set and counted only when it changes |
| PresetLink.MainUnitSim.DoProcessFrame | scripts/sim_link_control_main_presets_ab.py:111-119 | what a frame does to a unit and whether it is handled |
| PresetLink.MainUnitSim.UploadHfdTable | scripts/sim_link_control_main_presets_ab.py:131-139 | an upload overlays the bank in force, up to the flash's end, and says which error it met |
| PresetLink.ControlUnitSim.SetPreset | scripts/sim_link_control_main_presets_ab.py:151-158 | CONTROL keeps the preset in all its places and sends one broadcast frame |
| PresetLink.ControlFrameReaches | scripts/sim_link_control_main_presets_ab.py:151-158 | CONTROL's frame is 0xB0, 0x20 and the preset, and leaves any unit in that preset |
| PresetLink.Deliver | scripts/sim_link_control_main_presets_ab.py:161-170 | every unit processes a frame as often as it is listed; the names returned are those of the units that handle it |
| PresetLink.TimesCounts | scripts/sim_link_control_main_presets_ab.py:161-170 | how often a unit processes a delivered frame is how often it is listed |
| PresetLink.RunCounts | scripts/sim_link_control_main_presets_ab.py:111-129 | over any run the preset is the data bit of the last accepted preset frame, and the counters count frames, accepted frames and real changes |
| PresetLink.ParityIsPreset | scripts/sim_link_control_main_presets_ab.py:121-129 | the parity of the changes is the preset |
| PresetLink.BanksHoldLastUploads | scripts/sim_link_control_main_presets_ab.py:100-139 | over any run each bank holds the last table uploaded under its preset, and the rest of the flash is untouched |
| PresetLink.BroadcastKeepsTwins | scripts/sim_link_control_main_presets_ab.py:94-170 | under broadcast frames and common uploads, units that start alike stay alike |
| PresetLink.TwinsPartExactly | scripts/sim_link_control_main_presets_ab.py:94-119 | a frame parts two such units exactly when one of them alone handles it |
| PresetLink.UnitsFollowControl | scripts/sim_link_control_main_presets_ab.py:145-170 | over any run of CONTROL's commands a unit of any address that starts in step with CONTROL is in step at the end |
| Watchdog.Core.constructor | crates/dlcp-sim/src/core.rs:533-537 | a fresh core runs with nothing counted and nothing pending |
| Watchdog.Core.ClearWdt | crates/dlcp-sim/src/core.rs:710-713 | a clear zeroes the count and drops what is pending |
| Watchdog.Core.TakeWdtTimeoutPending | crates/dlcp-sim/src/core.rs:724-728 | a take reads and lowers the flag and leaves the count |
| Watchdog.Core.TickWdt | crates/dlcp-sim/src/core.rs:952-974 | one chunk of cycles: counting, timing out, waking a halted core |
| Watchdog.Core.AdvanceHaltedCycles | crates/dlcp-sim/src/core.rs:916-932 | an interrupt wakes a sleeping core before the watchdog counts |
| Watchdog.TimeoutRange | crates/dlcp-sim/src/core.rs:87-93 | the period lies between its base and 32768 times it |
| Watchdog.PeriodDoubles | crates/dlcp-sim/src/core.rs:706-708 | the period is 16000 cycles, doubled by each step of the postscaler |
| Watchdog.EnabledByEitherBit | crates/dlcp-sim/src/core.rs:952-954 | the configuration bit enables the watchdog, and bit 0 of WDTCON alone does; no other bit |
| Watchdog.TimeoutWakesOrIsPending | crates/dlcp-sim/src/core.rs:956-974 | the timeout of a halted core wakes it, clears bit 3 of RCON alone and leaves nothing pending; that of a running core is pending |
| Watchdog.InterruptWakesSleeper | crates/dlcp-sim/src/core.rs:916-932 | an interrupt wakes a sleeping core in time for its timeout to be pending, and does not wake an idle one |
| Watchdog.EnabledAgainStartsOver | crates/dlcp-sim/src/core.rs:956-960 | a disabled watchdog counts nothing: enabled again, it has a whole period left |
| Watchdog.StepIsSafe | crates/dlcp-sim/src/core.rs:956-974 | after any chunk the count is below the period |
| Watchdog.RunIsSafe | crates/dlcp-sim/src/core.rs:956-974 | and so after any run |
| Watchdog.NeverSaturates | crates/dlcp-sim/src/core.rs:961 | the saturating sum is never cut |
| Watchdog.TimeoutsAreApart | crates/dlcp-sim/src/core.rs:956-974 | k timeouts take at least k whole periods, whatever is cleared on the way |
| Watchdog.TimeoutsAreDue | crates/dlcp-sim/src/core.rs:956-974 | without clears, chunks of at most m cycles cost each timeout at most m - 1 more |
| Watchdog.FirstTimeoutExactly | crates/dlcp-sim/src/core.rs:956-974 | without clears a timeout comes as soon as the cycles reach what is left of the period, and not before |
| Watchdog.NoneSooner | crates/dlcp-sim/src/core.rs:710-713 | after a timeout or a clear there is none for a whole period |
| Watchdog.PendingIsOwed | crates/dlcp-sim/src/core.rs:724-728 | over any run the flag is up exactly when a timeout of the running core has not been taken or cleared |
| BraceScanner.ScanLoop | scripts/exploratory_oracle_run.py:93-118 | the scanner as it runs: its candidate is an object of the text |
| BraceScanner.RunIsSound | scripts/exploratory_oracle_run.py:94-118 | at every character, the open brace and the candidate are what the variables say |
| BraceScanner.ScanOfParts | scripts/exploratory_oracle_run.py:94-118 | after a part that leaves the scanner outside braces and strings, the rest is scanned as if it stood alone |
| BraceScanner.ScanIsIdempotent | scripts/exploratory_oracle_run.py:114-120 | what is found starts and ends with a brace, no proper beginning of it is balanced, and scanning it finds all of it |
| BraceScanner.FindsObjectExactly | scripts/exploratory_oracle_run.py:93-118 | a balanced object is found in its place if and only if what stands before it leaves the scanner in the clear and what stands after it holds no object |
| BraceScanner.FindsObjectInPlainText | scripts/exploratory_oracle_run.py:93-118 | so it is found in text without braces and quotes |
| BraceScanner.StrayHidesObject | scripts/exploratory_oracle_run.py:93-118 | an earlier open brace or a stray quote hides it |
| BraceGrammar.StringIsSkipped | scripts/exploratory_oracle_run.py:100-109 | a string literal, escapes included, leaves the scanner as it was, whatever stands before it |
| BraceGrammar.ObjectsAreBalanced | scripts/exploratory_oracle_run.py:94-118 | what the scanner takes for an object is an object of a grammar of strings and braces, and the other way round |
| BraceGrammar.CleanExactly | scripts/exploratory_oracle_run.py:94-118 | the scanner is outside braces and strings exactly after texts in which everything opened is closed |
| BraceGrammar.ScanFindsLastObject | scripts/exploratory_oracle_run.py:93-120 | the scan finds the last object that stands outside others and outside strings, and nothing exactly when there is none |

## Left out

- The instruction executor, the scheduler, peripherals, LCD, snapshots and the chain factories: the UART
  history and the reset are modelled by what the facade's readers see of them.
- `from_hex_path` and its I/O error; the unit tests of the loader.
- Errors of the lax reader carry a line number and a path there; here a raised exception is one value.
- `int(text, 16)` and `bytes.fromhex` outside plain hex digits (signs, underscores, inner spaces): the
  agreement is about texts that the strict loader accepts, where they do not occur.
- A return followed by a newline is cut as two line breaks in `HexText`, which leaves one blank line more;
  blank lines play no part there.
- The firmware's side of the CONTROL ring: a step of the read index, one byte at a time.
- Ticks and destinations of UART records; the six capture methods are one class with the core as a
  parameter.
- The regular expressions of the converter: a line is what the patterns see of it. The label scan of the
  source also cuts lines at breaks other than the newline. The address listing comes from an assembler run
  and is a parameter; where labels are placed is a parameter of the theorems.
- The twelve known table names of the converter and the field names of the logs are data: what is proved is that
  the names of new anchors differ.
- The converter's other passes, and the label text and comment of an inserted anchor.
- The classes `\w` and `\d` of Python's regular expressions are parameters of the ledger model; the proofs
  ask only that no digit is a line break and that spaces and dots are no word characters.
- The ledger's file system side: atomic replacement, the verify command, the divergence log and the
  blocked note. A verify command is taken not to edit the ledger, and its outcome is a parameter.
- `cmd_status`, `cmd_report` and `cmd_verify_phase`: they print and change nothing.
- The sorting algorithm behind `list.sort`: it is any stable sort.
- The text of a card beyond its stimulus lines, JSON decoding, and log fields that the merge does not read.
- `usize` core indices are 64-bit words; a panic is the absent value of an option.
- `BootOffset` and `ClockDomain` variants and serialization.
- Row 0 of the preset screen and the terminal animation.
- Digests, the demo run and the compatibility checks of the link simulation; the test payload generator.
- Peripherals that tick while a core is halted, and the instructions that clear the watchdog or enter
  sleep: whether an interrupt is pending is a parameter.
- Fence stripping and JSON decoding around the brace scanner.
- HexLax.LaxReaderAgrees: says nothing about texts that the strict loader refuses, on which the lax reader
  may well succeed.
- UartRuns.CapturesAreExactlyOnce: is about fewer than 2^64 bytes of one core, where the counts do not
  stick; UartCapture.SaturationIsExact says what happens beyond.
