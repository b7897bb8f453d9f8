# Verification of the FPGA programming stack

These modules model the pieces of the repository that compile, encode, schedule or account, and
prove what those pieces are for. Each C file that works by changing things in place is a class or
a set of loops over arrays here, proved against functions; the main results are about those
functions, for all inputs, all runs or all reachable states.

- **SVF to CSVF.** `Svf`, `SvfCompiler`: the line compiler with its remembered bit stores.
  `HeadTail`: splicing bit strings of any length in byte buffers. `ProcessIndex`, `BuildIndex`:
  moving run-test commands in front of their shifts. `Csvf`, `Trace`: the target language and
  what it makes a register do. `CsvfPlay`, `Jtag`: the player, the TAP controller and a device that
  may answer anything; `TapIdle`: where the controller is; `Registers`: what goes into the device's
  registers, read off the log. `SvfSource` reads SVF directly, as numbers, and `SvfCorrect`,
  `SvfProgram` and `EndToEnd` connect the two; `SvfExamples` spells small programs out, and
  `SvfLimits` has the programs that are not compiled right.
- **XSVF to CSVF.** `Xsvf` (the language and its meaning), `XsvfCompile` and `XsvfConvert` (the
  translation, on commands and on bytes), `XsvfCorrect`, and `XsvfPlay` for what a device sees.
- **Buffers.** `Buffers`, with `Bits` and `Bytes` for numbers as bits and bytes.
- **Channels.** `Queue` (the growing ring), `Usb` (transfers over a first-in first-out bus),
  `Frames` (the framing) and `Channel`.
- **Sparse memory.** `HexFormat`, `HexImage`, `HexRoundTrip`, `HexIo` for Intel HEX;
  `I2cFormat`, `I2cRoundTrip`, `I2cProm` for FX2 EEPROM records.
- **Arguments.** `Getopt` says what an argument list means, `GetoptScan` is the scanner.
- **The ATM backend.** `Tea` and `Ledger`.

`dafny verify dfyconfig.toml` checks everything.

## Where the code does not do what one would expect

The model follows the code. Each of these has a lemma or contract that says exactly when it
happens, and most have one with an input that shows it.

- The player makes up to 32 attempts at a comparison, and takes having made 32 for failure even
  when the last one matched (`Jtag.RetryExact`, `Jtag.MatchTooLate`).
- A default mask is whole bytes of 0xFF. When a length is not a multiple of eight, the padding of
  a header's or body's mask lands on bits of the part above it
  (`SvfCorrect.EffectiveMaskExact`, `SvfLimits.HeaderMaskPadding`).
- A RUNTEST that does not follow a shift is moved behind the wrong shift or lost, and a first
  wait of exactly 0xFFFFFFFF clocks is taken for "none yet" (`ProcessIndex.ReorderedMeaning`,
  `SvfLimits.LeadingRunTest`).
- An instruction register of more than 255 bits does not fit XSIR's length byte
  (`SvfCorrect.InsnShiftExact`, `SvfLimits.WideInstruction`).
- XSIR makes no comparison, so that the TDO of an SIR line is dropped unless its mask is zero
  (`SvfCorrect.InsnShiftExact`, `SvfLimits.InsnCompared`).
- The SVF compiler does not look whether a register that is compared fits the player's 2048-byte
  buffers, and its caller does not ask for the size that tells (`EndToEnd.ConvertedRoom`,
  `EndToEnd.DeviceSeesIntended`, `SvfLimits.RegisterTooLong`).
- A zero-bit shift that is not judged leaves the TAP controller in Pause-DR or Pause-IR
  (`TapIdle.StreamIdles`, `TapIdle.EmptyShift`).
- From every attempt at an XSDRTDO, matched or not, the player goes back by way of Pause-DR and
  Shift-DR, so that one more bit is shifted in before the register is updated
  (`Registers.ShiftSeen`, `Registers.SeenWalksBack`).
- The XSVF compiler checks the size of comparisons, and not of masks, against the player's
  buffers; its maxBufSize tells, and no caller asks for it (`XsvfPlay.RoomToPlay`,
  `XsvfPlay.MaskTooBig`).
- The player masks expected bytes whole but what it captured is cut to the register, so that a
  padding bit set in both XSVF operands makes a comparison fail whatever comes out
  (`XsvfCorrect.PaddingExact`, `XsvfPlay.PaddingShared`).
- Splitting an XSVF shift at anything but a byte boundary misplaces the later bits
  (`XsvfCorrect.PiecesExact`).
- The XSVF compiler drops a mask by shortening its output buffer, which leaves stale bytes where
  fill bytes belong (`Buffers.Buffer.Shorten`); its output is a sequence here.
- Hex lines of 250 and more data bytes do not fit the reader's line buffer, and the writer makes
  them for line lengths from 250 on (`HexIo.WrittenComesBack`, `HexRoundTrip.LongLine`).
- The length less four, by which the EEPROM writer decides that the end is near, wraps around for
  images of fewer than four bytes (`I2cFormat.SmallImages`).
- A read for which the caller gives no buffer leaves its bytes in a transfer that is free again
  once it has completed. If that happens inside another call, they stay there until they are
  asked for, and the transfer is given out before if as many chunks are written meanwhile as
  there are items not in flight (`Channel.FLContext.BufferAppend`,
  `Channel.FLContext.WriteChannelAsync`, `Channel.BorrowAcrossWrite`).
- A read that failed is reported to the call that was waiting, and stays in the report, so that
  the next await hands it out as if it had succeeded (`Channel.FLContext.ReadChannelAsyncAwait`).
- The bank takes a request for a signed number, so that one with its top bit set raises the
  balance (`Ledger.PaymentLowers`, `Ledger.NegativeRequest`), and it takes what an ATM returns for
  what is left of a figure, whether or not it was sent one (`Ledger.ReconciledExact`,
  `Ledger.ReturnWithoutFigure`).

## What is required of inputs

- SVF: operands fill their declared length and fit it; a data shift has at least one body or head
  bit; register lengths stay below 2^32. A body line with a TDO is read as asking for a comparison
  of the whole register, header and trailer included; those of their bits for which no TDO was
  given are expected to be zeros, under their masks, which are ones by default.
  `EndToEnd.ConvertSvf` itself also wants that the parsed stream can be indexed
  (`EndToEnd.Indexable`): past an instruction register that is too long, the code may read and
  write outside its arrays.
- XSVF (`Xsvf.AllSensible`): data shifts have bits; a comparison uses a mask given at its own
  size; a split shift is not interrupted and its pieces but the last are whole bytes; end states
  are the default ones. `XsvfConvert.Converter.XsvfSwapBytes` itself is proved for every stream
  that does not stop inside a command; past the end of one that does, the code reads whatever
  comes next in memory, and so it does with EEPROM records that are cut short.
- Intel HEX: the mask is no longer than the data; line lengths are at least one (with zero the
  writer would not end). EEPROM images: data and mask of equal length below 64K.
- The ledger's runs (`Ledger.Allowed`): requests are non-negative as signed words, an ATM settles
  before it serves a user online again, pays out no more than it has left, and returns only
  figures that it was sent. What happens without the last two is stated of single calls.

## Model

| member | source | states |
|---|---|---|
| EndToEnd.CompilerExact | backend/libs/libfpgalink/svf2csvf.c:392-871 | For every program whose operands fit their lengths: the conversion succeeds and playing the result gives exactly the intended register shifts (tail, body and head end to end), comparisons of data and instruction registers and idle clocks, if and only if the RUNTEST lines stand where they can be moved, no padding bit of a mask adds to a comparison, no instruction register has more than 255 bits and no SIR line has a TDO under a non-zero mask; for any initial contents of the player's mask buffer |
| EndToEnd.DeviceSeesIntended | backend/libs/libfpgalink/csvfplay.c:45-219 | For programs that meet these four conditions: the player's buffers hold every command of the compiled stream if and only if every register that is compared fits 2048 bytes; and then what any device sees when the player runs is what it would see if the intended events were played directly, including where a failing comparison stops it |
| EndToEnd.RegistersTakeIntended | backend/libs/libfpgalink/csvfplay.c:66-216 | For the same programs, as long as no unjudged instruction shift of no bits is intended: read off the log with the TAP controller's transitions alone, every device's registers are given just the intended bits in the intended order, once for a shift that is not judged and once per attempt for one that is, and the controller idles for just the intended clocks after each |
| EndToEnd.ConvertedDecodes | backend/libs/libfpgalink/svf2csvf.c:774-871 | The stream the compiler ends with decodes completely, from any size in force, to the reordered commands of the parsed one, which are the compiled commands unless an instruction register is too long |
| EndToEnd.ConvertedRoom | backend/libs/libfpgalink/csvfplay.c:54-57 | For every n: buffers of n bytes hold every command of the compiled stream if and only if they hold every register for which a comparison under a non-zero mask is asked |
| EndToEnd.ConvertSvf | backend/libs/libfpgalink/svf2csvf.c:873-955 | Parsing every line, ending the stream and reordering it succeeds exactly when the parsed stream decodes to its end, and then leaves exactly the converted stream in the buffer |
| EndToEnd.NarrowIsIndexable | backend/libs/libfpgalink/svf2csvf.c:785-822 | Without an instruction register that is too long the conversion stays within its index arrays and succeeds |
| EndToEnd.ParseAll | backend/libs/libfpgalink/svf2csvf.c:915-935 | Line after line, the buffer holds the encoding of all commands compiled so far and numCommands counts them |
| SvfLimits.LeadingRunTest | backend/libs/libfpgalink/svf2csvf.c:723-772 | A RUNTEST before a first SIR is meant to wait in front of it, and is compiled to the same wait behind it, for every count |
| SvfLimits.HeaderMaskPadding | backend/libs/libfpgalink/svf2csvf.c:310-322 | HDR 6 and then SDR 8 with no mask bit set: bit 6 of the register, which is the body's, is compared all the same, so what is played is not what is intended |
| SvfLimits.WideInstruction | backend/libs/libfpgalink/svf2csvf.c:650-680 | HIR 248 and SIR 8, all zeros: the stream decodes, to a shift of no bits instead of 256 |
| SvfLimits.InsnCompared | backend/libs/libfpgalink/svf2csvf.c:652-680 | SIR 8 with TDI 00 and TDO 01: a comparison with 01 is intended, and a shift without one is played |
| SvfLimits.RegisterTooLong | backend/libs/libfpgalink/svf2csvf.c:583-625 | SDR 16392 with TDI and TDO all zeros meets all four conditions, and takes one byte more than the player's buffers have |
| SvfExamples.EndToEndBits | backend/libs/libfpgalink/svf2csvf.c:652-680 | HIR 8, TIR 8, SIR 8: what is meant to go in is the header's byte lowest, then the body's, then the trailer's |
| SvfExamples.Remembered | backend/libs/libfpgalink/svf2csvf.c:295-339 | A second SDR of the same length repeats TDI and MASK and not TDO, and a RUNTEST between the two waits after the first |
| SvfExamples.Forgotten | backend/libs/libfpgalink/svf2csvf.c:295-339 | An SDR of another length shifts zeros in and compares every bit, and without a TDO compares none |
| SvfExamples.FirstWait | backend/libs/libfpgalink/svf2csvf.c:723-772 | A RUNTEST behind the first shift can be moved if and only if it does not wait for 0xFFFFFFFF clocks |
| SvfCompiler.ParseContext.ParseLine | backend/libs/libfpgalink/svf2csvf.c:392-685 | Parsing one line in place appends exactly the encoding of the commands that the line compiles to, updates the remembered state accordingly and counts the commands |
| SvfCompiler.BitStore.ProcessLine | backend/libs/libfpgalink/svf2csvf.c:295-339 | TDI and MASK are remembered while the length stays the same and reset (zeros, all ones) when it changes; TDO is reset on every line |
| SvfCompiler.AppendSwapped | backend/libs/libfpgalink/svf2csvf.c:375-387 | The bytes go in last byte first |
| SvfCompiler.AppendSwappedAndInterleaved | backend/libs/libfpgalink/svf2csvf.c:358-373 | The bytes of the two operands go in alternately, last bytes first |
| SvfProgram.ProgramShifts | backend/libs/libfpgalink/svf2csvf.c:392-685 | Over whole programs: the compiled shifts and comparisons are the intended ones if and only if no mask padding adds to a comparison, no instruction register is too long and none is to be compared; every payload has the size in force if and only if none is too long |
| SvfProgram.ProgramWaits | backend/libs/libfpgalink/svf2csvf.c:404-460 | The compiled XRUNTESTs wait exactly where the RUNTEST lines do, and stand where they can be moved exactly when the lines do |
| SvfProgram.CompileLineCorrect | backend/libs/libfpgalink/svf2csvf.c:549-680 | Encoder and player agree on hidden state: after every line the player's xsdrSize is the register length last compiled, the mask it holds is the combined mask reversed whenever the encoder takes that for granted, and the line makes its intended shift exactly when its masks are covered, its instruction register fits and no comparison of that is asked for |
| SvfProgram.DataLineCorrect | backend/libs/libfpgalink/svf2csvf.c:560-640 | The commands for one data shift make one shift, the intended one if and only if the masks are covered, and keep sizes and masks in step |
| SvfCorrect.EffectiveMaskExact | backend/libs/libfpgalink/svf2csvf.c:310-335 | The mask the hardware compares under is the combined source mask if and only if no padding bit lands on a bit the source does not care for |
| SvfCorrect.ZeroMaskExact | backend/libs/libfpgalink/svf2csvf.c:583-592 | The compiler sees a zero mask exactly when the intended mask is zero, so leaving a comparison out changes nothing |
| SvfCorrect.CheckExact | backend/libs/libfpgalink/svf2csvf.c:592-625 | The comparison encoded by XSDRTDO is the intended mask and the expected bits under it |
| SvfCorrect.InsnShiftExact | backend/libs/libfpgalink/svf2csvf.c:650-680 | An XSIR makes the intended shift if and only if the register has fewer than 256 bits and the line asks for no comparison under a non-zero mask; it has a payload of the announced size if and only if the register has fewer than 256 bits |
| SvfCorrect.StoreTracks | backend/libs/libfpgalink/svf2csvf.c:295-339 | The remembered bytes stand for the remembered bit strings, read as numbers, after every line |
| HeadTail.HeadTail | backend/libs/libfpgalink/svf2csvf.c:156-227 | The in-place splice of head, data and tail leaves exactly bitsToBytes(total) bytes, whose number is the splice of the three; its unreachable branch is not reached |
| HeadTail.SplicedIsJoin | backend/libs/libfpgalink/svf2csvf.c:156-227 | For operands that fit their bit counts the splice is tail*2^(data+head) + data*2^head + head, and fits the total |
| HeadTail.ShiftLeft | backend/libs/libfpgalink/svf2csvf.c:105-154 | Shifting a buffer left in place multiplies its number by 2^shift, cut to the bytes the new bit count needs |
| HeadTail.AddHeader | backend/libs/libfpgalink/svf2csvf.c:166-181 | Putting the head below the shifted data merges the shared byte without losing a bit of either |
| HeadTail.AddTail | backend/libs/libfpgalink/svf2csvf.c:183-222 | Putting the tail above the data merges the shared byte without losing a bit of either |
| ProcessIndex.ReorderedMeaning | backend/libs/libfpgalink/svf2csvf.c:723-772 | The wait-here reading of the input equals the run-test-register reading of the output if and only if every stray XRUNTEST waits for nothing, so does the shift of a group that has one, and the first wait is not 0xFFFFFFFF |
| ProcessIndex.OrderKept | backend/libs/libfpgalink/svf2csvf.c:723-772 | The commands other than XRUNTEST come out unchanged and in order |
| ProcessIndex.ReorderedShifts | backend/libs/libfpgalink/svf2csvf.c:723-772 | Reordering changes no shift, no comparison and no payload size |
| ProcessIndex.ReorderedLength | backend/libs/libfpgalink/svf2csvf.c:786 | At most one command is added for every two, so three slots for every two commands suffice |
| ProcessIndex.NoneEmittedTwice | backend/libs/libfpgalink/svf2csvf.c:741-762 | When every XRUNTEST directly follows a shift, no emitted XRUNTEST repeats the value in force |
| ProcessIndex.ProcessIndex | backend/libs/libfpgalink/svf2csvf.c:723-772 | The loop over the two index arrays writes exactly the reordered commands and the end mark, within the destination |
| BuildIndex.BuildIndex | backend/libs/libfpgalink/svf2csvf.c:774-871 | Decode, reorder, encode: on success the buffer holds the encoding of the reordered decoded commands, and it succeeds exactly when the stream decodes to its end; otherwise the buffer is as before |
| BuildIndex.BuildIndexDecodes | backend/libs/libfpgalink/svf2csvf.c:774-871 | Decoding what was written gives exactly the reordered commands of the input |
| BuildIndex.IndexCommands | backend/libs/libfpgalink/svf2csvf.c:788-822 | The index loop fills exactly numCommands slots with the decoded commands in order |
| BuildIndex.BlockIsEncoding | backend/libs/libfpgalink/svf2csvf.c:826-860 | The length that each command is copied by is the length of its encoding under the size in force |
| Csvf.DecodeEncoded | backend/libs/libfpgalink/svf2csvf.c:788-822 | A well-sized command list is decoded back from its encoding, and junk behind the end mark does not matter |
| Csvf.EncodeDecoded | backend/libs/libfpgalink/svf2csvf.c:788-822 | What decodes is well sized, and encoding it gives back the stream up to its end mark |
| Csvf.CommandBytes | backend/libs/libfpgalink/svf2csvf.c:788-822 | The bytes of each command, as literals, longs most significant byte first |
| CsvfPlay.CsvfPlay | backend/libs/libfpgalink/csvfplay.c:45-219 | The interpreter's log of port operations and its status are those of playing the events of the decoded stream, stopping at the first comparison that fails |
| Registers.StreamSeen | backend/libs/libfpgalink/csvfplay.c:45-219 | For every stream that leaves the controller idle, every device and any mask buffer: while the controller is in Shift-IR or Shift-DR the player's log shows, event by event, the register, the number of bits and the bits themselves, once if it is not judged, and otherwise up to the first attempt that captures what is expected, 32 at most; what is captured is what the device answers to the log so far; and each time the controller idles for just the clocks due |
| Registers.ShiftSeen | backend/libs/libfpgalink/csvfplay.c:103-216 | The same of one event: of an unjudged shift of no bits one bit goes in and no clock is spent idling, of any other what it should show; a judged one shifts one more bit in on the way back, or two if it has none |
| Registers.EmptyShiftShows | backend/libs/libfpgalink/csvfplay.c:103-131 | What is seen of an unjudged shift of no bits is never what it should show |
| Registers.StaysShifting | backend/libs/libfpgalink/csvfplay.c:122 | All bits of a data shift are clocked in its shift state, and the last one leaves it |
| Registers.SeenWalksBack | backend/libs/libfpgalink/csvfplay.c:160 | The walk back from a judged shift passes a shift state once more, and one from a shift of no bits twice |
| CsvfPlay.PlayJudged | backend/libs/libfpgalink/csvfplay.c:145-184 | The retry loop of an XSDRTDO performs and reports exactly what the retry semantics says |
| CsvfPlay.TdoMatchFailed | backend/libs/libfpgalink/csvfplay.c:242-254 | The byte loop fails exactly when the masked bytes differ |
| CsvfPlay.ComparisonExact | backend/libs/libfpgalink/csvfplay.c:242-254 | Comparing masked bytes is comparing the register's bits under the mask, padding included |
| Jtag.RetryExact | backend/libs/libfpgalink/csvfplay.c:152-176 | An XSDRTDO is accepted if and only if one of its first 31 attempts captures what is expected under the mask; attempts stop at the first match and never exceed 32 |
| Jtag.MatchTooLate | backend/libs/libfpgalink/csvfplay.c:173-176 | A device whose first match is the 32nd attempt is turned down, which is what the code does |
| Jtag.IdleExact | backend/libs/libfpgalink/csvfplay.c:66-216 | For one device and list of events: the TAP controller is in Run-Test/Idle at each event boundary if and only if no event that is played is an unjudged shift of no bits |
| TapIdle.StreamIdles | backend/libs/libfpgalink/csvfplay.c:66-216 | For every CSVF stream, state and mask buffer: after the reset the TAP controller is in Run-Test/Idle at each command boundary with every device, if and only if a scan of the decoded commands finds no XSIR of length zero and no XSDR under size zero before the first comparison that nothing can satisfy |
| TapIdle.IdleForEveryDevice | backend/libs/libfpgalink/csvfplay.c:66-216 | The same for lists of events; when the scan finds one, a device that answers as expected gets there |
| TapIdle.EmptyShift | backend/libs/libfpgalink/csvfplay.c:103-131 | The stream XSIR, 0, XCOMPLETE leaves the controller in Pause-IR with every device |
| Jtag.ResetFromAnywhere | backend/libs/libfpgalink/csvfplay.c:66 | The reset sequence ends in Run-Test/Idle from every state |
| XsvfPlay.LoadXsvfAndConvertToCsvf | backend/libs/libfpgalink/xsvf2csvf.c:104-324 | A complete and sensible XSVF program converts if and only if the player has room for its comparisons; what it converts to then has the program's events if and only if no comparison's mask and expected bits share padding; and maxBufSize is the least size of buffers that hold every operand the player has to keep |
| XsvfPlay.DeviceSeesProgram | backend/libs/libfpgalink/csvfplay.c:45-219 | For an accepted program without shared padding: the player's buffers hold every command of the converted stream if and only if its non-zero masks have at most 2048 bytes; and then what any device sees of it is what it would see if the program's own events were played directly |
| XsvfPlay.RegistersTakeProgram | backend/libs/libfpgalink/csvfplay.c:66-216 | What every device is given in its registers, read off the log, is what the program says, as long as it has no unjudged shift of no bits |
| XsvfPlay.RoomToPlay | backend/libs/libfpgalink/csvfplay.c:72-88 | The player's buffers hold every command of the converted stream if and only if the program is accepted and its non-zero masks have at most 2048 bytes, which is when the size reported says so |
| XsvfPlay.MaskTooBig | backend/libs/libfpgalink/xsvf2csvf.c:120-150 | A non-zero mask of 2050 bytes that no comparison uses is accepted, and the player has no room for what it is converted to |
| XsvfPlay.PaddingShared | backend/libs/libfpgalink/csvfplay.c:242-254 | A four-bit comparison whose mask and expected bits both have bit 4 set asks for four zeros, is accepted and has room, and playing what it is converted to fails with every device |
| XsvfConvert.Converter.XsvfSwapBytes | backend/libs/libfpgalink/xsvf2csvf.c:104-306 | Reading byte by byte with back-patching gives the output, the status and the buffer size of the step-by-step specification, for every stream that does not stop inside a command |
| XsvfConvert.Converter.SwapBytes | backend/libs/libfpgalink/xsvf2csvf.c:42-64 | Filling the appended block from its end reverses the operand |
| XsvfConvert.Converter.SwapAndInterleaveBytes | backend/libs/libfpgalink/xsvf2csvf.c:69-89 | The two operands end up reversed and interleaved |
| XsvfConvert.Converter.ConvertMask | backend/libs/libfpgalink/xsvf2csvf.c:120-150 | A mask of zeros leaves the output as it was but for the size; any other is written reversed |
| XsvfCorrect.XsvfExact | backend/libs/libfpgalink/xsvf2csvf.c:104-306 | For every sensible program: it is accepted exactly when its comparisons fit the player; the stream written then decodes to its compiled commands, which have the program's shifts, comparisons and waits if and only if no comparison shares padding; and the size reported is at most n exactly when they fit buffers of n bytes |
| XsvfCorrect.ProgramMeans | backend/libs/libfpgalink/xsvf2csvf.c:104-306 | The same from any point of any program, with sizes, masks and shifts under way in step |
| XsvfCorrect.PaddingExact | backend/libs/libfpgalink/csvfplay.c:242-254 | Masking whole bytes is masking the register's bits if and only if no bit above the register is set in both the mask and the expected bytes |
| XsvfCorrect.SharedPaddingRejects | backend/libs/libfpgalink/csvfplay.c:242-254 | When one is, the player accepts nothing that can come out of the register |
| XsvfCorrect.RoomExact | backend/libs/libfpgalink/xsvf2csvf.c:143-147 | From any point of any program: the size reported, and the two conditions for the player's buffers |
| XsvfCorrect.PiecesExact | backend/libs/libfpgalink/xsvf2csvf.c:235-263 | Two pieces of a split shift come out as one shift of the joined bits, whatever the data, if and only if the first is a whole number of bytes |
| XsvfCompile.RunEncodes | backend/libs/libfpgalink/xsvf2csvf.c:104-306 | The bytes written, back-patched sizes included, are the encoding of the compiled commands, and a program fails only for a comparison too big for the player or an end state other than Run-Test/Idle |
| XsvfCompile.Patched | backend/libs/libfpgalink/xsvf2csvf.c:248-263 | Back-patching the size of a shift under way changes its four bytes and nothing else |
| Xsvf.DroppedAccepts | backend/libs/libfpgalink/xsvf2csvf.c:135-167 | Leaving out a comparison whose mask is all zeros changes no outcome |
| Xsvf.ShortCommands | backend/libs/libfpgalink/xsvf2csvf.c:104-306 | How each command with one byte of operand is read, opcodes as literals |
| Xsvf.LongCommands | backend/libs/libfpgalink/xsvf2csvf.c:104-306 | The same for the commands with more, longs most significant byte first |
| Xsvf.ThreePieces | backend/libs/libfpgalink/xsvf2csvf.c:235-263 | XSDRB, XSDRC and XSDRE of a byte each mean one shift of 24 bits, the first byte lowest |
| Xsvf.MaskedShift | backend/libs/libfpgalink/xsvf2csvf.c:120-190 | A mask judges the XSDRTDO after it and not the XSDR after that; XRUNTEST waits after both |
| Buffers.Buffer.Reallocate | backend/libs/libbuffer/core.c:124-147 | Growth keeps the contents, terminates, ends below twice the block end and fills what lies behind the block |
| Buffers.Buffer.AppendBlock | backend/libs/libbuffer/core.c:277-287 | Appends exactly the block and keeps every byte from length to capacity equal to the fill byte |
| Buffers.Buffer.AppendLongBE | backend/libs/libbuffer/core.c:234-257 | Appends the four big-endian bytes |
| Buffers.Buffer.MaybeReallocate | backend/libs/libbuffer/core.c:291-324 | Reaches the block end, padding any gap with the fill byte |
| Buffers.Buffer.WriteBlock | backend/libs/libbuffer/core.c:463-471 | Overwrites with fill padding and changes nothing else |
| Buffers.Buffer.WriteConst | backend/libs/libbuffer/core.c:450-458 | The same for a repeated byte |
| Buffers.Buffer.WriteLongBE | backend/libs/libbuffer/core.c:421-445 | The same for a big-endian long |
| Buffers.Buffer.DeepCopy | backend/libs/libbuffer/core.c:61-89 | The copy has the source's contents and fill, and stays well formed |
| Buffers.Buffer.ZeroLength | backend/libs/libbuffer/core.c:114-120 | Empties the buffer and refills it with the fill byte |
| Buffers.Buffer.Shorten | backend/libs/libfpgalink/xsvf2csvf.c:138-141 | Cutting a buffer short, as dropping a mask does, leaves it in order if and only if the bytes cut off are fill bytes |
| Buffers.Swap | backend/libs/libbuffer/core.c:93-110 | Contents, fill and memory are exchanged |
| Queue.UnboundedQueue.Put | backend/libs/libusbwrap/unbounded_queue.c:49-82 | Gives the item at the put index, never one in flight; a full queue doubles first, losing, duplicating and reordering nothing; asking twice gives the same item |
| Queue.UnboundedQueue.Grow | backend/libs/libusbwrap/unbounded_queue.c:51-78 | Doubling straightens the ring out: same items in flight in the same order, new ones behind |
| Queue.UnboundedQueue.SlotIsFree | backend/libs/libusbwrap/unbounded_queue.c:79 | The slot being filled is owned by the queue and not in flight |
| Queue.UnboundedQueue.CommitPut | backend/libs/libusbwrap/unbounded_queue.c:84-90 | The filled slot joins the end of what is in flight |
| Queue.UnboundedQueue.CommitTake | backend/libs/libusbwrap/unbounded_queue.c:100-106 | The front leaves what is in flight and becomes the item last taken; the slot being filled stays the same |
| Queue.UnboundedQueue.LastTakenIsLast | backend/libs/libusbwrap/unbounded_queue.c:79-106 | The item last taken is free, and the next put gives it out again if and only if it is the only one that is |
| Usb.UsbDevice.WriteAsyncSubmit | backend/libs/libusbwrap/libusbwrap.c:439-469 | Submits the bytes of exactly the buffer that was given out, unless they are too many |
| Usb.UsbDevice.WriteAsyncPrepare | backend/libs/libusbwrap/libusbwrap.c:427-437 | Gives out a buffer that is not in flight; it is the one of the transfer taken last if and only if only one was free |
| Usb.UsbDevice.ReadAsync | backend/libs/libusbwrap/libusbwrap.c:471-506 | Submits the read request, for the caller's memory or for the item's own buffer, unless it is too long |
| Usb.UsbDevice.AwaitCompletion | backend/libs/libusbwrap/libusbwrap.c:508-582 | Completes the oldest transfer in flight and reports what it was, failed or not; the bytes of a read without a destination are in the item's buffer, which is free and the last to be given out again; a buffer that was given out for writing stays given out, with its bytes |
| Channel.FLContext.ReadChannelAsyncAwait | backend/libs/libfpgalink/libfpgalink.c:487-505 | The n-th successful await hands out the n-th submitted read, once; success is for a failed read if and only if an earlier call has returned that failure; the bytes of a read without a destination are in a buffer that has been given out again exactly when as many items are in use as there were when it completed, which is when it is in flight or being written to, and until then are those that came; when reads are outstanding and no transfer fails it succeeds; a read already in the report is handed out without waiting |
| Channel.FLContext.Prepare | backend/libs/libfpgalink/libfpgalink.c:206-211 | A new write buffer is the one that holds a finished read exactly when no other is free; nothing is waited for, and the ring grows only when it is full |
| Channel.BorrowAcrossWrite | backend/libs/libfpgalink/libfpgalink.c:199-505 | From opening a device on: set any chunk size, ask for a read without a destination, wait with the writes, write any payload, await the read. As long as no transfer fails every call succeeds, and the buffer handed over has the bytes that came if the framed payload takes at most three chunks; with a part of a fourth it is the buffer being written to and begins with that part of the payload; with four or more it is in flight |
| Channel.FLContext.HandedOutInOrder | backend/libs/libfpgalink/libfpgalink.c:199-505 | Over any run, what has been handed out is the first of the submitted reads in order, and a finished read not yet handed out is the next one, in the report |
| Channel.UnguardedOverwriteLosesRead | backend/libs/libfpgalink/libfpgalink.c:214-219 | Without the guard on the report every completion after a finished read loses it |
| Channel.AccountedStep | backend/libs/libfpgalink/libfpgalink.c:496-500 | Overwriting a report that holds no read keeps the account complete |
| Channel.FLContext.BufferAppend | backend/libs/libfpgalink/libfpgalink.c:199-268 | The submitted transfers followed by the pending bytes grow by the appended data (a prefix of it on failure); each transfer sent is exactly chunkSize long and the pending bytes stay fewer than that. With a finished read in the report it succeeds without waiting, and has given that read's buffer out again if and only if the pending bytes and the data take at least as many chunks as there are items not in flight before the call |
| Channel.FLContext.FlushAsyncWrites | backend/libs/libfpgalink/libfpgalink.c:286-302 | Sends exactly the pending bytes as one transfer and keeps the stream |
| Channel.FLContext.SetAsyncWriteChunkSize | backend/libs/libfpgalink/libfpgalink.c:270-284 | Refused while data is pending; zero means 65536 |
| Channel.FLContext.AwaitAsyncWrites | backend/libs/libfpgalink/libfpgalink.c:304-323 | On success everything written has been carried and nothing is outstanding; otherwise a finished read is in the report with more in flight behind it, or a transfer failed |
| Channel.FLContext.WriteChannelAsync | backend/libs/libfpgalink/libfpgalink.c:341-374 | Appends the commands of the payload in blocks of up to 65536 bytes, with the stream still the framing of all commands; empty payloads and incapable devices are refused with nothing changed. With a finished read in the report it succeeds without waiting, and has given that read's buffer out again if and only if the pending bytes and the framed blocks take at least as many chunks as there are items not in flight before the call |
| Channel.FLContext.WriteChannel | backend/libs/libfpgalink/libfpgalink.c:327-337 | The same, and on success everything has been carried and completed |
| Channel.FLContext.ReadChannelAsyncSubmit | backend/libs/libfpgalink/libfpgalink.c:433-483 | Appends the read command, sends everything up to it, then submits exactly the read, as the last transfer; a failure submits none. With a finished read in the report nothing is waited for, and one item is in use beyond the chunks that the pending bytes and the command take |
| Channel.FLContext.ReadChannel | backend/libs/libfpgalink/libfpgalink.c:380-429 | On success the submitted reads tile the destination, as many reads have been handed out as submitted, and each came back whole |
| Channel.TilesCover | backend/libs/libfpgalink/libfpgalink.c:394-424 | Every byte of the destination is in exactly one request, and each request fits one transfer |
| Channel.TilesFull | backend/libs/libfpgalink/libfpgalink.c:394-424 | All requests but the last are for 65536 bytes, each from where the one before ends |
| Channel.FLContext.StreamDecodes | backend/libs/libfpgalink/libfpgalink.c:357-370 | As long as no failure has cut a command short, parsing the stream recovers every command issued |
| Frames.ParseFramed | backend/libs/libfpgalink/libfpgalink.c:357-370 | Parsing a framed command list, reading length 0 as 65536, recovers every channel, count and payload |
| Frames.FrameParsed | backend/libs/libfpgalink/libfpgalink.c:357-370 | A stream that parses is the framing of what it parses to |
| Frames.BlocksDeliver | backend/libs/libfpgalink/libfpgalink.c:360-372 | The blocks of a payload deliver it to its channel, whole and in order, and nothing to any other |
| Frames.BlocksLength | backend/libs/libfpgalink/libfpgalink.c:354-372 | There is one block for every 65536 bytes begun, and each adds three bytes |
| Frames.FrameBytes | backend/libs/libfpgalink/libfpgalink.c:357-370 | The bytes of a frame: the channel, 128 more for a read, then the count, more significant byte first, and the payload of a write |
| Frames.FullFrame | backend/libs/libfpgalink/libfpgalink.c:354-360 | A write of 65536 bytes has a count of two zero bytes |
| GetoptScan.Scan | backend/libs/libargtable2/getopt.c:474-926 | Repeated calls up to -1 leave the array a permutation, options with their arguments first, the rest (and all behind --) from optind on, each in their original order; and for some list of calls, each of which takes the next element that starts with a dash and is longer, or what is left of one, and reports of it what it says, the outputs are those reported and the array is what they took and what they left |
| GetoptScan.Scanner.GetoptInternal | backend/libs/libargtable2/getopt.c:474-926 | One call reports the next option and keeps what the array and the indices stand for, or finds the scan finished |
| GetoptScan.RotateInPlace | backend/libs/libargtable2/getopt.c:299-353 | The in-place exchange terminates and swaps the two adjacent blocks, each keeping its order |
| GetoptScan.Scanner.Advance | backend/libs/libargtable2/getopt.c:504-579 | Either the scan is finished with optind at the first non-option, or optind is at the next option |
| GetoptScan.ScanExchange | backend/libs/libargtable2/getopt.c:518-523 | Exchanging skipped non-options with the options behind them changes nothing that the list means |
| GetoptScan.ScanDashes | backend/libs/libargtable2/getopt.c:538-549 | The special element -- ends the scan with itself among the options and all that follows among the rest |
| GetoptScan.Scanner.DecodeShort | backend/libs/libargtable2/getopt.c:732-926 | The first letter of a cluster, with its argument from the same or the next element |
| GetoptScan.Scanner.DecodeLong | backend/libs/libargtable2/getopt.c:597-729 | A long option, with its argument after an equals sign or in the next element |
| Getopt.ParsePermutes | backend/libs/libargtable2/getopt.c:260-275 | Options and the rest together are the original elements, none lost or made up |
| Getopt.ParseShuffles | backend/libs/libargtable2/getopt.c:260-275 | The original list is a shuffle of the options and the rest, so both keep their order |
| Getopt.LookupMeaning | backend/libs/libargtable2/getopt.c:612-636 | The table search finds an option exactly when the name is its full name, or an abbreviation of it and of no other; it finds nothing exactly when no name matches |
| Getopt.LongExact | backend/libs/libargtable2/getopt.c:597-729 | For every element, all that follows it and every report: a long option is reported with the argument behind its equals sign, with the next element or with none, or complained of, if and only if the option that its name denotes takes arguments so |
| Getopt.ShortExact | backend/libs/libargtable2/getopt.c:732-926 | The same for the letters of a cluster: an argument is the rest of the cluster or the next element, by the colons in the option string, and each complaint is made exactly in its case |
| Getopt.KindExact | backend/libs/libargtable2/getopt.c:732-926 | No colon, one or two behind the first occurrence of a letter ask for no, a required or an optional argument; a letter is unlisted if and only if it is a colon or does not occur |
| Getopt.BareExact | backend/libs/libargtable2/getopt.c:606-607 | The name of a long option is what comes before its first equals sign |
| Getopt.ParseIsCalls | backend/libs/libargtable2/getopt.c:474-926 | What a list is parsed to is what some list of such calls makes of it |
| Getopt.CallsAreParsed | backend/libs/libargtable2/getopt.c:474-926 | And no list of such calls makes anything else of it |
| GetoptScan.FindLong | backend/libs/libargtable2/getopt.c:612-636 | The loop over the table computes that search |
| HexIo.WriteToIntelHexFile | backend/libs/libbuffer/hexio.c:309-409 | The file is the printed records of the image under the supplied or derived mask, then the end-of-file line; it fails exactly when no records exist for the image |
| HexIo.WrittenComesBack | backend/libs/libbuffer/hexio.c:197-409 | For every data, mask and line length that the writer takes: records exist exactly for images of up to a megabyte; reading them back succeeds if and only if the line length is at most 249 or no 250 consecutive bytes within one 64K segment are meant; and then it gives what is meant |
| HexRoundTrip.RoundTripBytes | backend/libs/libbuffer/hexio.c:197-409 | Byte by byte with zero fill, under the same condition: the data under the mask, zeros elsewhere, and the mask up to its last set byte |
| HexRoundTrip.ShortExact | backend/libs/libbuffer/hexio.c:341-390 | No record has more than 249 bytes if and only if no 250 consecutive bytes within one segment are meant, for every longer line length |
| HexRoundTrip.LongLine | backend/libs/libbuffer/hexio.c:203-235 | 250 bytes that are all meant, written with line length 250, cannot be read back |
| HexRoundTrip.DataRecordsApply | backend/libs/libbuffer/hexio.c:345-390 | Reading the records of a segment puts back what is meant in it; every record has between 1 and lineLength bytes and none crosses a 64K boundary |
| HexRoundTrip.RecordsReach | backend/libs/libbuffer/hexio.c:391-398 | Records exist exactly when 20 bits of address suffice |
| HexRoundTrip.ReadableExact | backend/libs/libbuffer/hexio.c:203-235 | A printed list of records is read back without error, and with the effect of its records, if and only if no record has more than 249 bytes |
| HexRoundTrip.LongLineRefused | backend/libs/libbuffer/hexio.c:225-235 | A record of 250 bytes or more makes reading fail, whatever follows it |
| HexImage.KeptMeaning | backend/libs/libbuffer/hexio.c:168-176 | The kept image, byte by byte: what is meant, fill bytes in the gaps, a mask that ends with the last byte meant |
| HexIo.CompressedComesBack | backend/libs/libbuffer/hexio.c:270-302 | A compressed image read into a buffer with the same fill is the data up to a trailing run of fill bytes |
| HexIo.DeriveMask | backend/libs/libbuffer/hexio.c:270-302 | The derived mask leaves out a byte exactly when it is in a maximal run of at least eight fill bytes |
| HexIo.ReadFromIntelHexFile | backend/libs/libbuffer/hexio.c:197-250 | Buffers and status are those of reading the file line by line up to the end-of-file record, with a mask buffer or without |
| HexIo.ProcessLine | backend/libs/libbuffer/hexio.c:48-192 | One line changes the buffers and the segment as its record says, or is refused with the right status |
| HexIo.ScanLine | backend/libs/libbuffer/hexio.c:62-150 | The field-by-field scan with a running checksum computes the parse of the line |
| HexFormat.ParseExact | backend/libs/libbuffer/hexio.c:62-150 | A line is read as a record if and only if, up to where it stops, it is that record as printed; so wrong checksums, lower-case digits and trailing junk are refused |
| HexFormat.GoodExact | backend/libs/libbuffer/hexio.c:62-150 | A line is read as a record if and only if, up to where it stops, it is a colon and the digits of a count, an address, a kind, as many bytes as the count says, and a byte that makes the sum of all a multiple of 256; and these are the fields |
| HexFormat.OneByteOff | backend/libs/libbuffer/hexio.c:110-135 | A line whose bytes add up to a multiple of 256 is no longer taken for a record when any one byte is changed |
| HexIo.WriteRecord | backend/libs/libbuffer/hexio.c:375-388 | Printing digit by digit with a running checksum gives the record's line |
| HexFormat.LineIs | backend/libs/libbuffer/hexio.c:366-384 | The bytes of every record's line, the data included, add up to a multiple of 256 |
| HexRoundTrip.DataLine | backend/libs/libbuffer/hexio.c:366-384 | The bytes 02 33 7A at address 30 are printed as :0300300002337A1E |
| HexRoundTrip.SegmentLine | backend/libs/libbuffer/hexio.c:386-400 | The segment that starts at 12000 is printed as :020000021200EA |
| HexRoundTrip.Digits | backend/libs/libbuffer/conv.c:53-61 | Digits above nine are upper-case letters |
| HexRoundTrip.RecordsAreFull | backend/libs/libbuffer/hexio.c:345-366 | A record goes on until the line is full, the segment ends or a byte is not meant |
| HexIo.WriteMasked | backend/libs/libbuffer/hexio.c:341-400 | The nested loops over segments and runs print exactly the records of the image |
| I2cRoundTrip.RoundTrip | backend/libs/libfx2loader/i2c.c:84-218 | After writing, finishing and reading back into buffers with any fill bytes: every masked byte returns at its address, a bridged gap reads as zeros and any other byte as the fill, the mask read covers the one written, and beyond it just the gaps that are bridged |
| I2cRoundTrip.ChunksFit | backend/libs/libfx2loader/i2c.c:50-80 | Every record has between 1 and 1023 bytes; the records are in order and disjoint |
| I2cRoundTrip.PiecesFull | backend/libs/libfx2loader/i2c.c:60-65 | A long stretch is cut into records of 1023 bytes, one behind the other, and what is left |
| I2cRoundTrip.RecordLayout | backend/libs/libfx2loader/i2c.c:66-75 | A record is its length, its address, the more significant bytes first, and its data |
| I2cRoundTrip.LastRecordMeans | backend/libs/libfx2loader/i2c.c:207-218 | The last record has its top bit set, ends reading, and writes one zero to E600 |
| I2cFormat.StoredExact | backend/libs/libfx2loader/i2c.c:96-162 | A byte that is not meant is stored if and only if something meant comes before its run of zeros and the run is not worth splitting at (four zeros, not within four bytes of the end) |
| I2cFormat.SmallImages | backend/libs/libfx2loader/i2c.c:124-125 | A gap within four bytes of the end is split off if and only if the image has fewer than four bytes and nothing more is meant |
| I2cFormat.ChunksCover | backend/libs/libfx2loader/i2c.c:96-162 | Every byte that is meant is stored, and the stretches are in order |
| I2cFormat.ChunksApart | backend/libs/libfx2loader/i2c.c:96-162 | Between one stretch and the next there is something that is not stored |
| I2cProm.WritePromRecords | backend/libs/libfx2loader/i2c.c:84-166 | The loop appends exactly the records of the image behind the header, or refuses an uninitialised buffer |
| I2cProm.DumpChunk | backend/libs/libfx2loader/i2c.c:50-80 | A stretch is dumped as records of up to 1023 bytes, zeroed in place where nothing is meant |
| I2cProm.ReadPromRecords | backend/libs/libfx2loader/i2c.c:171-203 | The buffers receive the image that the records stand for; uninitialised sources and non-empty destinations are refused |
| I2cProm.Initialise | backend/libs/libfx2loader/i2c.c:31-44 | The eight header bytes are set |
| I2cProm.HeaderFields | backend/libs/libfx2loader/i2c.c:31-44 | The loader byte, the three numbers, less significant byte first, and the configuration byte are where they belong in the header |
| I2cProm.Finalise | backend/libs/libfx2loader/i2c.c:207-218 | The reset record is appended, or an uninitialised buffer refused |
| Tea.Inverse | backend/apps/flcli/main.c:50-79 | For every block, every key and every number of rounds, decryption undoes encryption and the other way round |
| Tea.MixBits | backend/apps/flcli/main.c:73-74 | What a round adds has a one in each bit in which an odd number of three sums have one: sixteen times the other half plus a key word, the other half plus the sum, and a thirty-second of it plus another key word |
| Tea.KnownAnswer | backend/apps/flcli/main.c:66-79 | The block 1, 2 under the key 3, 4, 5, 6 is encrypted to 76C06008, A90C2909 in 32 rounds, and decrypted back |
| Tea.LastSum | backend/apps/flcli/main.c:51-68 | Where decryption starts, 0xC6EF3720, is where 32 rounds of encryption end |
| Tea.Encrypt | backend/apps/flcli/main.c:66-79 | The loop computes 32 rounds of encryption in place, on 32-bit words |
| Tea.Decrypt | backend/apps/flcli/main.c:50-63 | The loop computes 32 rounds of decryption in place, on 32-bit words |
| Ledger.Conservation | backend/apps/flcli/main.c:425-691 | Over any run of commands 1, 2 and 5 and offline payments, from any state in which the books balance: each balance is its start less all cash paid out, but for what is not settled yet, covers that and is never negative; the figure at the ATM is that for the balance less what was paid out of it; nothing else in any row changes |
| Ledger.ConservedFromOpening | backend/apps/flcli/main.c:425-691 | The same, spelled out row by row, for every run from the bank's opening with non-negative balances and no figure at any ATM |
| Ledger.CutExact | backend/apps/flcli/main.c:652-656 | For every balance, returned figure and amount: the truncated four-fifths arithmetic comes to that amount if and only if the figure is the one for the balance less the amount or, for nothing paid out, the next one when four fifths are not whole |
| Ledger.ReconciledExact | backend/apps/flcli/main.c:649-691 | For every table, customer, returned word and amount: command 5 books exactly that amount, and changes no other row, if and only if the word, as a signed one, is such a figure |
| Ledger.FindExact | backend/apps/flcli/main.c:122-134 | The search used in all of these finds a row if and only if it is the first that matches, and none if and only if none does |
| Ledger.ServedExact | backend/apps/flcli/main.c:425-510 | Commands 1 and 2: whoever is in the first row that matches is paid if and only if no administrator and four fifths of the balance cover the request, a signed word; the balance is lowered by just that and nothing else changes; the reply is four fifths of the balance left |
| Ledger.ReconciledReply | backend/apps/flcli/main.c:649-691 | Command 5 replies four fifths of the balance that it leaves |
| Ledger.NobodyServed | backend/apps/flcli/main.c:427-620 | Without a row that matches, nothing changes and the reply says so |
| Ledger.SufficientExact | backend/apps/flcli/main.c:136-140 | There is enough online exactly when the request is at most the figure sent |
| Ledger.PaymentLowers | backend/apps/flcli/main.c:430-479 | For every table and customer: a payment raises the balance if and only if it is granted and the request has its top bit set, which is always granted on a non-negative balance; otherwise a balance that was not negative stays so; no other row changes |
| Ledger.NegativeRequest | backend/apps/flcli/main.c:430-479 | A request of 0xFFFFFFFF credits one unit |
| Ledger.ReturnWithoutFigure | backend/apps/flcli/main.c:649-691 | Returning zero when no figure was sent leaves the table as it was if and only if the balance is -1, 0 or 1 |
| Ledger.Bank.Serve | backend/apps/flcli/main.c:425-510 | Commands 1 and 2 reply and change the one row as the request asks, and no other |
| Ledger.Bank.Reconcile | backend/apps/flcli/main.c:617-691 | Command 5 books what the returned figure says was paid out, and replies with the new figure |
| Ledger.Bank.FindUser | backend/apps/flcli/main.c:122-134 | The loop finds the first row with the user and the PIN hash, and nothing if and only if no row has both |

## Left out

- Allocation failure, liberror messages and the error out-parameters: only status codes are modelled.
- STATE, ENDIR, ENDDR, TRST and FREQUENCY lines of SVF, which the loader skips without a word (svf2csvf.c:904-914): programs here have none of them.
- Tokenising SVF lines, SMASK operands, hex digit parsing of operands and the SVF compiler's maxBufSize: lines arrive parsed.
- The operands and stored bit strings of the SVF compiler, the source images of the two memory writers and command lines are byte or character sequences rather than buffers; index entries stand for the commands they point at.
- What TDI is while the player walks between states: the bit that goes in on the way back from an XSDRTDO is seen, and not its value.
- Reads one byte past the end whose value is masked away (in the left shift and in the EEPROM scan) read zeros.
- Submission errors of libusb, event errors and timeouts: the bus completes transfers in order, each with any outcome of success or failure.
- A BufferAppend failure cuts a command short; what the other end makes of the stream afterwards is not stated.
- ReadChannel after a failure: how many reads stay outstanding is not stated.
- An XSDR's comparison with the last expected value, which Appendix B of Xilinx XAPP503 describes: neither compiler nor player makes one, so the model of XSVF has none.
- XREPEAT counts and XSTATE paths, which the XSVF compiler reads and drops.
- The POSIXLY_CORRECT and RETURN_IN_ORDER orderings of getopt, getopt_long_only, the "W;" extension and a caller that moves optind: the scan is in PERMUTE mode with a table of long options.
- getopt's flag and val results and messages: an output names the option and its argument.
- Extended linear and start records of Intel HEX, which the reader refuses.
- Little-endian and single-byte variants of the buffer operations, which add only easy members.
- The channel polling loops, the byte-wise transport of encrypted words, myHash and the CSV file of the ATM backend; its doubles are exact four fifths.
- prog.c, spi.c, fx2.c, device opening, the firmware, argtable2's constructors and printing.
- I2cProm.Initialise: a buffer that was longer than eight bytes keeps stale bytes behind the header, so well-formedness is stated only for shorter ones.
- The caller's memory that reads with a destination are for: its bytes are the device's business and are not modelled. A device that fills a borrowed buffer does so when its transfer completes.
- Channel.FLContext.ReadChannelAsyncAwait: once a buffer has been given out again, what its bytes are is stated for the run of BorrowAcrossWrite only.
- Channel.FLContext.BufferAppend: of a read that completes while the call throttles, rather than before it, it does not say in advance whether the buffer is given out again; what is in use afterwards tells, as the await's contract says.
- Signed overflow of balances and requests near 2^31 in the ledger.
