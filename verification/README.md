# Verified models of the MCE software

The MCE software reads out the Multi-Channel Electronics of bolometer cameras: two kernel drivers for the
PCI card (`driver_c6`, `driver_c7`), a player of Jam programs that reconfigures the electronics over JTAG
(`applications/mce_jam`), and tools around them. This project models the parts whose correctness is not
visible in any one function, and proves what they are for. `dafny verify dfyconfig.toml` checks all of it.

Code that changes state step by step is modelled so: classes with the source's fields, methods with its
loops and in-place arrays. Each such method is proved equal to a function, or against the property itself;
the theorems are about those functions, over every input and every run.

| file | what it models |
|---|---|
| `Tap.dfy`, `JtagScan.dfy` | the JTAG engine: TAP tables, state tracking, padded scans and swaps |
| `Transport.dfy` | the MCE transport: pairs packed into words, flushed payloads, the read-back |
| `Aca.dfy`, `AcaFormat.dfy` | ACA compression: bit reader and LZ decoder; the format written out in numbers |
| `SixBit.dfy` | ACA data as six-bit text, unpacked in place or read from the program |
| `Rlc.dfy`, `Literals.dfy` | run-length, binary and hexadecimal Boolean arrays, both decoders of each |
| `Crc.dfy`, `CrcProgram.dfy` | the CRC register and the scanner that finds the CRC statement; the FCS of RFC 1662, and programs by their statements |
| `JamArithmetic.dfy` | exponentiation, SQRT, LOG2 and CEIL in 32-bit integers |
| `MceProtocol.dfy`, `MceProgress.dfy`, `MceCard.dfy` | the three command layers of the c6 driver: as one machine, with its invariants and with what must happen, and as the handlers |
| `FrameRing.dfy` | the c6 frame ring |
| `FrameBuffer.dfy`, `GrantRing.dfy` | the c7 frame map over memory blocks, and its ring with delayed grants |
| `LineSplitter.dfy` | the line splitter of maslog |
| `Bits.dfy`, `Cyclic.dfy`, `CStrings.dfy`, `JamStub.dfy`, `JamText.dfy` | packed bits, ring indices, C strings, the program stream, Jam text |

## Assumptions

- TDO is any function of the whole history of TMS and TDI; the read-back words are laid out as `get_bit`
  expects (applications/mce_jam/jam_mce.c:282-292).
- c6: every interrupt, timer, tasklet and blocking system call is one atomic step. A DSP reply echoes its
  command and comes before any later command is sent. What the PCI registers answer is a parameter. "Every
  run" means every run in which no internal DSP command times out: on such a time-out the driver copies from
  a message that is not there (driver_c6/dsp_driver.c:621). Packets of the card carry the number of the
  command they answer in the model alone; the driver does not look at anything like it.
- c7: the card writes a frame only if its last received tail leaves a slot free; its reports and the grants
  arrive in order. A run begins when SET_DATA_MULTI has been answered.
- A program byte 0xFF is the end of the program: `jam_getc` returns a signed char
  (applications/mce_jam/jamstub.c:265-280).

## Where the code differs from what it says or intends

The models follow the code. These are theorems or parts of contracts below.

- The square root tries 1 << 32 first for numbers from 2^30 on, which does not fit: the root is right if
  and only if the number is below 2^30 (`JamArithmetic.SquareRoot`).
- A run-length block without bits after the last bit of the array is a syntax error (`Rlc.RoundTrip`).
- A run-length block that reaches beyond the array is refused only after it has been written. Nothing is written
  beyond the array's words for text that decodes; for text of legal blocks something is if and only if the last block
  taken reaches beyond them (`Rlc.ExtractRunLength`, `Rlc.ReadRunLength`, `Rlc.ReachOfEncoded`). `Rlc.Overshoots` is
  such a block.
- The CRC scanner drops every carriage return, not only those before a new line as its comment says
  (applications/mce_jam/jamcrc.c:108-117): the two agree on a text if and only if every carriage return in it
  stands before a new line (`Crc.RuleHolds`), and a program signed by the comment may be refused where they do
  not (`Crc.RuleSigns`, `Crc.RuleMayFail`). The CRC covers the new line before the statement.
- A scan of no bits does not end in the pause state (`JtagScan.ScanTracks`), as applications/mce_jam/jamjtag.c:1463
  says it always does. The tracker is wrong after the scan if and only if the stop state is the pause state or the
  exit after it (`JtagScan.ShiftStops`), and after a wait if and only if the state is unstable and a cycle is waited
  (`JtagScan.HoldingKeeps`). Nothing else misleads it (`JtagScan.Player.Perform`, `JtagScan.Player.Run`).
- The path map goes from exit-1 back to shift through the pause state, in two clocks more than it takes; all its
  other ways are the shortest (`Tap.MapIsShortest`).
- The stream decoder of ACA data unpacks its text into a workspace sized by the array, and does not look at its
  end. It stays inside if and only if the text is no longer than that (`SixBit.ReadCompressed`,
  `SixBit.FitsExactly`); a text without matches always is (`SixBit.LiteralsFit`), but every array of a byte or
  more also has legal texts that are not (`SixBit.EveryInitialiserFits`).
- The comment on the ACA decoder promises -1 for a stream that is not compressed data
  (applications/mce_jam/jamcomp.c:126-129). It gives that for a length that is too large alone; which streams are
  taken, and what happens on the others, is `Aca.Uncompressed`, `Aca.UncompressedExactly`.
- c6: a reader may be handed the late answer to a command that timed out as the answer to its own
  (`MceProtocol.LateAnswerIsRead`). It gets its own if and only if no such answer comes while its command
  waits for one (`MceProtocol.ReadIsOwnReply`).
- c6: callbacks compare the error with the positive `DSP_ERR_TIMEOUT` but get the negative one, so every
  DSP time-out counts as unknown; and a failed frame transfer clears `MDAT_HST` where `MDAT_DHST` is set. The flag
  says that a transfer is under way if and only if none has timed out since the flag was last set or cleared
  (`MceProtocol.DataFlagExactly`). The branch for a wrong DSP command is never taken
  (`MceProtocol.StepKeepsInv`: no command ends as a protocol error).
- c7: a grant follows a report, not the consumption that makes room, so a reader that has caught up may leave
  the card without room. It does if and only if the driver's count since the last grant is n_frames - 1, once
  all frames are reported and if no grant failed (`GrantRing.NoRoomWhenReported`; `GrantRing.NoRoomExactly` for
  every run; `GrantRing.GrantMayComeTooEarly` and `GrantRing.GrantMayBeLost` are such runs). A grant after
  consumption, which `DSPIOCT_SET_NFRAMES` sends at any time, makes room (`GrantRing.GrantMakesRoom`).

## Model

| member | source | states |
|---|---|---|
| `Bits.PutBit8` | applications/mce_jam/jamjtag.c:821-831 | Setting or clearing one bit of a byte buffer changes that bit of the array and no other |
| `Bits.PutBit32` | applications/mce_jam/jamarray.c:64-85 | The same for an array of 32-bit words |
| `Bits.BitOfWithBit` | applications/mce_jam/jamjtag.c:821-831 | After a write to bit k, every bit j reads as before unless j is k |
| `Bits.BitMeans` | applications/mce_jam/jamjtag.c:821-831 | Bit k of a word is the remainder by two of the word divided by 2^k |
| `Bits.ByteBits` | applications/mce_jam/jamjtag.c:821-831 | The bits of one byte of a buffer, least significant first, are its value |
| `Bits.Pow2Constants` | applications/mce_jam/jamarray.c:64-85 | The powers of two behind the widths of bytes and words, in numbers |
| `Tap.TransitionsAreStandard` | applications/mce_jam/jamjtag.c:93-115 | The transition table is the TAP controller of clause 6.1 of IEEE Std 1149.1-2001 |
| `Tap.TmsWrittenOut` | applications/mce_jam/jamjtag.c:117-130 | The hexadecimal path map, read bit by bit, for each of the 256 pairs of states |
| `Tap.StepIsCloser` | applications/mce_jam/jamjtag.c:117-130 | One clock along the map is one clock nearer, from every state to every target |
| `Tap.PathsEnd` | applications/mce_jam/jamjtag.c:626-657 | From every state the map leads to every target within eight clocks, so the limit of nine is never hit |
| `Tap.MapIsFair` | applications/mce_jam/jamjtag.c:117-130 | No clock of the map resets the TAP on the way elsewhere, or goes back from exit-2 to shift |
| `Tap.MapIsShortest` | applications/mce_jam/jamjtag.c:117-130 | No way to a target that keeps to that is shorter than the map's, but for two clocks less from exit-1 back to shift |
| `Tap.FoldConcat` | applications/mce_jam/jamjtag.c:561-582 | The state after a trace and another trace is the state after both |
| `Transport.GetBitInvertsReadBack` | applications/mce_jam/jam_mce.c:282-292 | get_bit undoes the word layout of the read-back, first partial word included, for any count |
| `Transport.GetBitPlace` | applications/mce_jam/jam_mce.c:282-292 | Which bit of which word is read: sixteen to a word, the latest of them in bit 0, inverted |
| `Transport.PairInPayload` | applications/mce_jam/jam_mce.c:224-245 | Where each pair is in a payload: sixteen to a word behind the count word, TDI below TMS |
| `Transport.UnpackAllSnoc` | applications/mce_jam/jam_mce.c:224-272 | What the payloads carry, one more payload at a time |
| `Transport.Mce.SendPayload` | applications/mce_jam/jam_mce.c:236-245 | Unpacking all payloads (first word halved pairs each) gives the pairs pushed, as many as were pending; none exceeds 55 words and the count word |
| `Transport.Mce.ReadTdo` | applications/mce_jam/jam_mce.c:258-266 | Reading back gives the TDO bits of just the clocks of the payload sent |
| `Transport.Mce.FlushStack` | applications/mce_jam/jam_mce.c:224-272 | A flush changes nothing of the pushed sequence, sends what was pending, empties the buffer, and captures the TDO bits of the flushed clocks |
| `Transport.Mce.SetBits` | applications/mce_jam/jam_mce.c:274-280 | Both bits of pair idx are overwritten, whatever was there, and nothing else |
| `Transport.Mce.WriteSingle` | applications/mce_jam/jam_mce.c:300-315 | One pair is appended to the history; fewer than 880 are pending afterwards; a read returns the TDO bit of this very clock |
| `Transport.Stitch` | applications/mce_jam/jam_mce.c:347-366 | Pieces of captured bits stored one after another are the captured bits of the whole scan |
| `Transport.Mce.ScanSpares` | applications/mce_jam/jam_mce.c:328-374 | During a scan, no bit still to be sent has been overwritten, though input and output may be one buffer |
| `Transport.Mce.Scan` | applications/mce_jam/jam_mce.c:328-374 | For scans of any length: the history grows by one clock for each bit of the input, in order, TMS high on the last alone; and the output buffer, which may be the input, receives exactly the TDO bits of these clocks |
| `JtagScan.ApproachShifts` | applications/mce_jam/jamjtag.c:888-925 | The TMS sequences of the scans lead from each start state to the shift state of the register |
| `JtagScan.ApproachEnters` | applications/mce_jam/jamjtag.c:888-1000 | On the way they never reset the TAP, and neither capture nor shift the other register; the register is captured once, just before it is shifted, or is an instruction register that goes on from its own pause; and no shorter way does that |
| `JtagScan.ApproachPasses` | applications/mce_jam/jamjtag.c:888-1000 | The states passed, one after the other, as the comments of the source name them |
| `JtagScan.StartsInColumn` | applications/mce_jam/jamjtag.c:1081-1119 | A scan starts from the pause state of the column that the TAP is in, for each of the seven states of both columns, and from Idle otherwise |
| `JtagScan.GotoClocks` | applications/mce_jam/jamjtag.c:587-660 | What a goto clocks: six clocks first if the state is unknown, one to stay in a stable state, and otherwise a way to the target of as many clocks as the map needs |
| `JtagScan.AroundAt` | applications/mce_jam/jamjtag.c:782-846 | Which bit of a padded scan is one of the preamble, of the target data, or of the postamble |
| `JtagScan.ScanTracks` | applications/mce_jam/jamjtag.c:888-1050 | A scan ends in the pause state, as the code says it always does, if and only if at least one bit was shifted; otherwise in the shift state |
| `JtagScan.RouteArrives` | applications/mce_jam/jamjtag.c:626-657 | The TMS values along the path map, clocked into the TAP, lead from every state to every target |
| `JtagScan.ShiftStops` | applications/mce_jam/jamjtag.c:1463-1473 | After a scan of no bits the TAP, in the shift state, and the tracker, in the pause state, meet at the stop state if and only if that is neither the pause state nor the exit state after it |
| `JtagScan.HoldingKeeps` | applications/mce_jam/jamjtag.c:697-735 | Holding TMS through a wait keeps the state if and only if it is stable or no cycle is waited |
| `JtagScan.ResetIdleTracks` | applications/mce_jam/jamjtag.c:561-582 | From any unknown state, five clocks high and one low end in Idle |
| `JtagScan.Player.Track` | applications/mce_jam/jamjtag.c:631-648 | One clock and one look-up: a tracker that equals the fold of the whole emitted trace goes on doing so |
| `JtagScan.Player.Goto` | applications/mce_jam/jamjtag.c:587-660 | Every goto clocks exactly the path of the map (after six clocks from the unknown state), within eight clocks, and arrives as the tracker says; a right tracker stays right |
| `JtagScan.Player.WaitCycles` | applications/mce_jam/jamjtag.c:697-735 | A wait clocks the path to its state and its cycles; a right tracker stays right if and only if the state is stable or no cycle is waited |
| `JtagScan.Player.WaitMicroseconds` | applications/mce_jam/jamjtag.c:740-777 | A delay moves a known state to the wait state, and leaves an unused TAP alone |
| `JtagScan.Player.Concatenate` | applications/mce_jam/jamjtag.c:782-846 | The buffer begins with preamble, target data and postamble, and is unchanged beyond |
| `JtagScan.Player.Extract` | applications/mce_jam/jamjtag.c:851-886 | The bits after the preamble are copied to the target, and no other target bit changes |
| `JtagScan.Player.ScanRegister` | applications/mce_jam/jamjtag.c:888-1050 | The clocks of a scan are approach, data with TMS rising on the last bit, and one closing clock; what is clocked before the first data bit enters the register, as above; a capturing scan leaves in the buffer the TDO bits of its data clocks |
| `JtagScan.Player.Reserve` | applications/mce_jam/jamjtag.c:1121-1142 | Out of memory if and only if a workspace is used and the scan is longer than 2048 bits, or 512 for instructions; otherwise there is room |
| `JtagScan.Player.ShiftData` | applications/mce_jam/jamjtag.c:1345-1476 | On the clocks sent: the way from the tracked state to the start state; from there a way into the register that never resets the TAP and neither captures nor shifts the other; then all padded bits, shifted while the TAP is in the shift state. The tracker ends in the stop state, and is right if and only if a bit was shifted or the stop state is neither pause nor the exit after it |
| `JtagScan.Player.DoScan` | applications/mce_jam/jamjtag.c:1055-1186 | The same for a plain instruction or data scan: so an instruction that has been loaded is not lost before the data of the next scan |
| `JtagScan.Player.Swap` | applications/mce_jam/jamjtag.c:1481-1629 | End to end: the same way into the register, and output bit out_index + k is the TDO bit of the clock that shifted bit preamble + k, for all k below count; every other output bit is unchanged; on failure all are |
| `JtagScan.Player.Perform` | applications/mce_jam/jamjtag.c:561-1629 | One command of any kind: it leaves a right tracker wrong if and only if it is a wait of some cycles in an unstable state, or a scan of no bits that stops in the pause state or the exit after it |
| `JtagScan.Player.Run` | applications/mce_jam/jamjtag.c:561-1629 | After any sequence of gotos, waits, delays, scans and swaps, from any unknown initial TAP state, the tracked state is the one IEEE 1149.1 gives for the whole TMS trace, if no command was such; and the first one that is makes it wrong |
| `Aca.BitLength` | applications/mce_jam/jamcomp.c:29-51 | The exact binary width: the number fits, and needs its top bit |
| `Aca.BitsRequired` | applications/mce_jam/jamcomp.c:29-51 | The shifting loop computes the exact width of a positive number, 1 for 0, and 16 for a negative one |
| `Aca.BitReader.ReadPacked` | applications/mce_jam/jamcomp.c:58-109 | Each call returns the next bits of the LSB-first bit sequence of the buffer and moves on by as many, whatever the byte boundaries; -1 if and only if so many are not left |
| `Aca.ReadSeries` | applications/mce_jam/jamcomp.c:58-109 | Over any series of reads the results are consecutive slices of the buffer's bits, and -1 for the first that does not fit |
| `Aca.OffsetFits` | applications/mce_jam/jamcomp.c:168-169 | Offset fields have at most fourteen bits, and every offset into the window fits its field |
| `Aca.CopyMatch` | applications/mce_jam/jamcomp.c:172-179 | A match is copied byte by byte, overlapping itself if it must, zeros if its offset is 0, and stops at the end of the text |
| `Aca.ReadMatch` | applications/mce_jam/jamcomp.c:166-180 | The offset is read in the width of the text so far or of the window, the length in a byte, and the match is copied; exactly which streams are too short, and which offsets too far |
| `Aca.ReadLiteral` | applications/mce_jam/jamcomp.c:157-164 | A literal group is three bytes, or what is left of the text; exactly which streams are too short |
| `Aca.ReadToken` | applications/mce_jam/jamcomp.c:152-181 | On bits of any kind, one turn appends the expansion of the token in front and leaves the stream behind it, or fails as the token does |
| `Aca.Uncompress` | applications/mce_jam/jamcomp.c:114-185 | On any stream the decoder ends with what is defined on the stream, by the fields in the theorems below: the length and the text with zeros after it, -1 if the buffer is too short, the negative length that is stated, or a read or a copy that the stream does not allow |
| `Aca.DecodeComplete` | applications/mce_jam/jamcomp.c:146-181 | Whatever follows the encoding of legal tokens, the decoder yields their LZ expansion |
| `Aca.DecodeSound` | applications/mce_jam/jamcomp.c:146-181 | Whatever the decoder yields is the expansion of legal tokens whose encoding is in front of the stream |
| `Aca.UncompressedExactly` | applications/mce_jam/jamcomp.c:114-185 | For every stream: a text is returned if and only if the stream begins with the encoding of legal tokens that expand to it, and there is room for it |
| `AcaFormat.OffsetFields` | applications/mce_jam/jamcomp.c:133-169 | After i bytes the offset field is as wide as the format has it, and holds every offset up to i and up to 8192, in version 2 up to 8191; from byte 8192 on it has fourteen bits, in version 2 thirteen |
| `AcaFormat.FormatDecodes` | applications/mce_jam/jamcomp.c:114-185 | A stream written out from the format alone (the length in 32 bits; a 0 and up to three bytes, or a 1, an offset in the least width that holds any possible one, and a length in eight bits) is decoded to the text that its tokens describe, offsets of 0 and matches of no bytes included, whatever follows it |
| `AcaFormat.LengthStated` | applications/mce_jam/jamcomp.c:140-146 | A stated length that is too large gives -1, and one from 2^31 on is taken for a negative one and returned |
| `Aca.EveryTextHasTokens` | applications/mce_jam/jamcomp.c:114-185 | Every byte string is the expansion of some legal tokens |
| `Aca.EncodedSize` | applications/mce_jam/jamcomp.c:114-185 | The bits of an encoding, counted from the tokens alone |
| `Aca.LiteralsSize` | applications/mce_jam/jamcomp.c:157-164 | n bytes as literals take 8n bits and one for each group of three |
| `Aca.StalledSame` | applications/mce_jam/jamcomp.c:166-180 | Matches of no bytes are legal anywhere before the end and change nothing but the size |
| `JamText.StripSpaces` | applications/mce_jam/jamarray.c:618-628 | White space is removed in place; the rest keeps its order |
| `JamText.NoSpacesSnoc` | applications/mce_jam/jamarray.c:618-628 | What is left when white space is removed, one more character at a time |
| `JamText.Characters` | applications/mce_jam/jamutil.c:42-55 | Which characters are white space, end a comment, or end a statement |
| `JamText.RealNext` | applications/mce_jam/jamarray.c:722-770 | White space is passed over, the end of the program ends the text, and any other character but an apostrophe is taken |
| `JamText.CommentSkipped` | applications/mce_jam/jamarray.c:722-770 | A comment runs from an apostrophe to the next new line or carriage return, or to the end of the program |
| `JamText.SixBitLetters` | applications/mce_jam/jamarray.c:382-404 | The sixty-four characters are 0 to 9, A to Z, a to z, the underscore and @, with these values in this order; there are no others |
| `JamText.SixBitsAt` | applications/mce_jam/jamarray.c:638-656 | Bit b of character i is bit 6i + b of the text |
| `JamText.GetRealChar` | applications/mce_jam/jamarray.c:722-770 | The next character outside white space and comments, or the end; calls run along the sequence of such characters |
| `JamText.SixBitChar` | applications/mce_jam/jamarray.c:382-404 | Every value below 64 has a character that the decoder maps back to it |
| `JamText.SixBitsOfText` | applications/mce_jam/jamarray.c:638-656 | Packing bits six to a character and unpacking them gives the bits and then zeros |
| `SixBit.PutSixBits` | applications/mce_jam/jamarray.c:636-657 | The six bits of a character land at six times its index, its own byte is cleared first, no later byte changes |
| `SixBit.UnpackedNext` | applications/mce_jam/jamarray.c:630-661 | Unpacking in place destroys no character still to be read and no bit already written |
| `SixBit.UnpackStatement` | applications/mce_jam/jamarray.c:630-667 | Success if and only if the text is legal up to a semicolon; then the buffer begins with its 6n bits |
| `SixBit.UnpackLiteral` | applications/mce_jam/jamexec.c:1266-1305 | The same for a literal, which runs to the end of the string |
| `SixBit.ReadSixBits` | applications/mce_jam/jamarray.c:1200-1233 | The stream decoder writes the same 6n bits into its workspace, under the same condition, unless the leading six-bit characters have more bits than the workspace: exactly then it writes beyond it |
| `SixBit.RunIsStatement` | applications/mce_jam/jamarray.c:1200-1233 | The leading six-bit characters end at a semicolon if and only if the statement is legal, and then are the statement |
| `SixBit.ExtractCompressed` | applications/mce_jam/jamarray.c:592-697 | For any statement: an error if it is not six-bit text up to a semicolon; else what the ACA decoder makes of its bits and zeros behind them, a success if and only if that is a text as long as the array |
| `SixBit.ReadCompressed` | applications/mce_jam/jamarray.c:1150-1247 | For any program: the decoder runs over the workspace it asks for if and only if the leading six-bit characters have more than 8(n + n/10 + 100) bits, for an array of n bytes; otherwise it does the same, with what was in the workspace behind the bits |
| `SixBit.AcaTextCarries` | applications/mce_jam/jamarray.c:592-700 | The text of any tokens survives the removal of white space and comments, and its bits begin with the encoding, for both decoders |
| `SixBit.InitialiserDecodes` | applications/mce_jam/jamarray.c:669-697 | The text of any legal tokens decodes to their expansion, whatever bits are behind it in its last byte |
| `SixBit.EveryArrayHasAnInitialiser` | applications/mce_jam/jamarray.c:592-700 | Every array of bytes has an initialiser that either decoder turns back into it, the stream decoder within its workspace |
| `SixBit.FitsExactly` | applications/mce_jam/jamarray.c:1192-1233 | An initialiser fits the workspace if and only if the bits of its length and tokens, rounded up to a multiple of six, do |
| `SixBit.LiteralsFit` | applications/mce_jam/jamarray.c:1192-1233 | One without matches always fits |
| `SixBit.EveryInitialiserFits` | applications/mce_jam/jamarray.c:1192-1233 | Every legal initialiser of a text fits if and only if the text is empty |
| `Rlc.KeyChar` | applications/mce_jam/jamarray.c:409-448 | Every kind of block and count size from one to five has a key letter, and the key is read back from it; which letters these are is `Rlc.BlocksByLetter` |
| `Rlc.CountRead` | applications/mce_jam/jamarray.c:500-514 | A count written in base 64, most significant digit first, is read back |
| `Rlc.CountIsNumber` | applications/mce_jam/jamarray.c:500-514 | The count is the number of its digits in base 64, whichever they are |
| `Rlc.BlocksByLetter` | applications/mce_jam/jamarray.c:409-567 | A letter A to E, with one to five count digits, gives so many zero bits; I to M so many ones; Q to U the bits of the data characters behind it, six from each, least significant first |
| `Rlc.OthersRefused` | applications/mce_jam/jamarray.c:409-448 | A block that begins with any other character, or has another character among its count digits, is malformed |
| `Rlc.BlockTaken` | applications/mce_jam/jamarray.c:494-567 | An encoded block is taken off the text with its bits, and the text goes on after it |
| `Rlc.RoundTripFrom` | applications/mce_jam/jamarray.c:493-587 | Blocks whose counts sum to the dimension decode to their concatenation, from any state of the array |
| `Rlc.RoundTrip` | applications/mce_jam/jamarray.c:493-587 | The round trip succeeds if and only if no block without bits comes last: after the last bit such a block is a syntax error |
| `Rlc.SemicolonNeeded` | applications/mce_jam/jamarray.c:570-587 | Without a semicolon behind the last block nothing decodes |
| `Rlc.EveryArrayHasAnEncoding` | applications/mce_jam/jamarray.c:493-587 | Every bit array has an encoding that decodes to it |
| `Rlc.DecodeStops` | applications/mce_jam/jamarray.c:481-587 | What follows the end of the string in the buffer makes no difference to the result |
| `Rlc.Fill` | applications/mce_jam/jamarray.c:521-537 | A run of equal bits is stored in place; one is written beyond the array if and only if the run reaches further |
| `Rlc.CopyData` | applications/mce_jam/jamarray.c:539-560 | Random data from the buffer: legal if and only if all its characters are, and then its bits are stored in place |
| `Rlc.ExtractRunLength` | applications/mce_jam/jamarray.c:453-587 | The buffer decoder: success if and only if the stripped text decodes, block by block as `Rlc.BlocksByLetter` and `Rlc.OthersRefused` say, and then the array holds the bits, is unchanged beyond, and nothing is written outside it; a syntax error, its only error, otherwise. If every block it takes is legal, it writes outside if and only if the last one reaches beyond the array's words |
| `Rlc.ReadData` | applications/mce_jam/jamarray.c:1092-1117 | Random data from the program, a character read when its first bit is due: the same bits |
| `Rlc.ReadRunLength` | applications/mce_jam/jamarray.c:1021-1145 | The stream decoder: the same, on the real characters of the program |
| `Rlc.ReachOfEncoded` | applications/mce_jam/jamarray.c:493-587 | For every list of legal blocks that fills the array, how far the blocks taken reach, counted from the blocks alone |
| `Rlc.Overshoots` | applications/mce_jam/jamarray.c:493-587 | For every array there is an encoding of one legal block that is refused, but only after being written beyond the array |
| `Rlc.BothDecodersAgree` | applications/mce_jam/jamarray.c:453-587 | In a statement buffer, or in a program that goes on, both decoders make the same of every encoding |
| `Literals.ExtractBinary` | applications/mce_jam/jamarray.c:230-293 | Success if and only if exactly the dimension's digits and a semicolon are found; digit k is bit k |
| `Literals.DigitCharacters` | applications/mce_jam/jamarray.c:332-350 | Which characters are binary and hexadecimal digits, in either case, their values, and what one more digit makes of a numeral |
| `Literals.BinaryStatement` | applications/mce_jam/jamarray.c:250-290 | The statement is as many characters 0 or 1 as the dimension, and a semicolon right behind them |
| `Literals.HexStatement` | applications/mce_jam/jamarray.c:322-374 | The same for hexadecimal digits |
| `Literals.ReverseBinary` | applications/mce_jam/jamarray.c:54-88 | The whole array is reversed in place, an odd middle bit included |
| `Literals.InitialiseBinary` | applications/mce_jam/jamarray.c:1595-1600 | Success if and only if the dimension's characters 0 and 1 and a semicolon are found; decoded and reversed, the array then holds the digits last first |
| `Literals.WordsHoldNibbles` | applications/mce_jam/jamarray.c:318-320 | An array of whole words has room for the digits that are expected |
| `Literals.ExtractHex` | applications/mce_jam/jamarray.c:298-377 | The same for hexadecimal digits, four bits each, a quarter of the dimension rounded up |
| `Literals.ReverseHex` | applications/mce_jam/jamarray.c:90-111 | The nibbles of the array change places, the middle one stays |
| `Literals.InitialiseHex` | applications/mce_jam/jamarray.c:1602-1606 | Success if and only if a quarter of the dimension, rounded up, in hexadecimal digits and a semicolon are found; decoded and reversed, bits 0 to dimension - 1 are then those of the numeral |
| `Literals.PackBinary` | applications/mce_jam/jamexec.c:945-989 | Digits are packed into the buffer they are read from without destroying one unread |
| `Literals.ConvertBinary` | applications/mce_jam/jamexec.c:917-1061 | The in-place literal converter gives the digits last first too, in whole words |
| `Literals.PackHex` | applications/mce_jam/jamexec.c:1094-1144 | Two digits to a byte, in the buffer they are read from |
| `Literals.ShiftNibbles` | applications/mce_jam/jamexec.c:1150-1163 | The nibble-shift of an odd numeral puts a zero before its first digit |
| `Literals.ConvertHex` | applications/mce_jam/jamexec.c:1066-1210 | The in-place converter gives the bits of the numeral, for an odd number of digits as for an even one |
| `Literals.ToWords` | applications/mce_jam/jamexec.c:1047-1055 | The bytes are gathered into 32-bit words without moving a bit |
| `Literals.Numeral2Value` | applications/mce_jam/jamarray.c:54-88 | Binary digits, last first, are the value of the numeral |
| `Literals.Numeral16Value` | applications/mce_jam/jamarray.c:90-111 | Hexadecimal digits likewise |
| `Literals.BinaryArrayIsValue` | applications/mce_jam/jamexec.c:917-1061 | What initialiser and literal leave in the array is the numeral's value |
| `Literals.HexArrayIsValue` | applications/mce_jam/jamarray.c:298-377 | The same for hexadecimal, less the bits beyond the dimension |
| `Literals.BinaryBothWays` | applications/mce_jam/jamexec.c:917-1061 | One binary numeral in both ways: what converts as a literal initialises exactly the arrays of its length, and every bit is the same |
| `Literals.HexBothWays` | applications/mce_jam/jamexec.c:1066-1210 | One hexadecimal numeral in both ways: the same, for the bits up to the dimension |
| `Crc.CrcUpdate` | applications/mce_jam/jamcrc.c:35-67 | The loop over register and data is eight turns of the register after the byte is added |
| `Crc.FcsTableEntries` | applications/mce_jam/jamcrc.c:35-67 | The FCS table entries of RFC 1662, Appendix C.2, for single bits |
| `Crc.StepsLinear` | applications/mce_jam/jamcrc.c:35-67 | The register is linear: the entries for other bytes are sums of those |
| `Crc.UpdateIsFcs16` | applications/mce_jam/jamcrc.c:35-67 | One update is the table step of RFC 1662, Appendix C.2: (fcs >> 8) ^ fcstab[(fcs ^ c) & 0xff] |
| `CrcProgram.TabIsTurned` | applications/mce_jam/jamcrc.c:35-67 | The whole table of RFC 1662, from its single-bit entries, is what eight turns of the register make of each byte |
| `CrcProgram.CrcIsFcs` | applications/mce_jam/jamcrc.c:23-30 | The CRC of every text is the FCS of RFC 1662, Appendix C.2: table steps from 0xFFFF, complemented |
| `CrcProgram.CheckValue` | applications/mce_jam/jamcrc.c:23-85 | That of the nine digits 123456789 is 0x906E |
| `Crc.OneByteDiffers` | applications/mce_jam/jamcrc.c:35-67 | Texts of one length that differ in exactly one byte leave different registers |
| `Crc.DelayedPush` | applications/mce_jam/jamcrc.c:259-270 | The delay lines hold the last four characters, and the registers of the text 0 to 3 characters earlier |
| `Crc.Flags.Close` | applications/mce_jam/jamcrc.c:215-249 | The flags advance by one character: comments, quotes, statements and instruction names |
| `Crc.Flags.Recognise` | applications/mce_jam/jamcrc.c:167-179 | A CRC statement is recognised exactly after its name, and the oldest register then stops before the name |
| `Crc.ReadCrc` | applications/mce_jam/jamcrc.c:181-213 | Four hexadecimal digits and a semicolon, or which error |
| `Crc.TooFewDigits` | applications/mce_jam/jamcrc.c:181-213 | White space and fewer than four hexadecimal digits: a syntax error, but an unexpected end if the program ends where the first digit is due |
| `Crc.FourDigits` | applications/mce_jam/jamcrc.c:181-213 | White space, four digits, more white space: compared if a semicolon follows; otherwise an unexpected end, or a syntax error if anything else does |
| `Crc.CheckCrc` | applications/mce_jam/jamcrc.c:100-292 | The scanning loop with its delay lines computes the outcome defined on the program text; which programs it passes, by their FCS and their statements, is `CrcProgram.ProgramPasses` |
| `Crc.CheckThrough` | applications/mce_jam/jamcrc.c:144-271 | A text without a CRC statement is scanned as if its carriage returns were not there |
| `Crc.StatedIsCompared` | applications/mce_jam/jamcrc.c:100-292 | A statement after any such text is compared with the CRC of text and new line if and only if the text ends outside quotes and statements, or in a comment within an instruction name; otherwise the check fails |
| `Crc.SignedProgramChecks` | applications/mce_jam/jamcrc.c:100-292 | Signing makes the check succeed, under exactly that condition |
| `CrcProgram.ProgramScanned` | applications/mce_jam/jamcrc.c:144-271 | A program of statements, comments and strings with no statement named CRC is scanned to its end and leaves the scanner between statements |
| `CrcProgram.ProgramPasses` | applications/mce_jam/jamcrc.c:100-292 | Such a program, its carriage returns anywhere, with a new line and a CRC statement behind it, passes if and only if the four digits are the FCS of program and new line; otherwise it is a CRC error with both values |
| `CrcProgram.SignedWithFcs` | applications/mce_jam/jamcrc.c:100-292 | Any text without a CRC statement, signed with its FCS, passes if and only if it ends where a statement can start |
| `CrcProgram.UnsignedFails` | applications/mce_jam/jamcrc.c:272-285 | Without the statement, the program ends unexpectedly, and the FCS of all of it is returned |
| `Crc.OneByteChangeIsCaught` | applications/mce_jam/jamcrc.c:100-292 | A program signed and then changed in one byte, not from or to a carriage return and not so that a CRC statement appears earlier, never passes the check; a CRC error with both values if the text still ends where a statement can start |
| `Crc.RuleHolds` | applications/mce_jam/jamcrc.c:108-117 | The rule of the comment (carriage returns before new lines are ignored) and the scanner agree on a text if and only if every carriage return in it stands before a new line |
| `Crc.RuleSigns` | applications/mce_jam/jamcrc.c:108-117 | A program signed by that rule passes if and only if the two values are equal and the text ends where a statement can start; they are equal if every carriage return stands before a new line |
| `Crc.RuleMayFail` | applications/mce_jam/jamcrc.c:144-148 | A program of two carriage returns, signed by that rule, is refused |
| `JamArithmetic.Exponentiate` | applications/mce_jam/jamexp.c:266-290 | The result is x to the y modulo 2^32, and no product overflows if and only if the power fits in 32 bits; 1 for negative y |
| `JamArithmetic.PowerStart` | applications/mce_jam/jamexp.c:266-290 | The first powers |
| `JamArithmetic.PowerSum` | applications/mce_jam/jamexp.c:266-290 | The power of a sum is the product of the powers |
| `JamArithmetic.SquareRoot` | applications/mce_jam/jamexp.c:294-335 | The integer root if and only if the number is below 2^30; beyond, at least 65536 |
| `JamArithmetic.TermsFit` | applications/mce_jam/jamexp.c:307-321 | Below 2^30 no term of the square overflows |
| `JamArithmetic.EvalSqrt` | applications/mce_jam/jamexp.c:693-710 | SQRT: overflow error exactly for negative numbers; below 2^30 the number is between the squares of the result and of the next, and from there on it is not |
| `JamArithmetic.EvalCeilSqrt` | applications/mce_jam/jamexp.c:727-738 | CEIL of SQRT: the least number whose square reaches n, if and only if n is below 2^30 |
| `JamArithmetic.EvalLog2` | applications/mce_jam/jamexp.c:660-691 | LOG2: the ceiling logarithm of every positive 32-bit number, an error for all others |
| `MceProtocol.StepKeepsInv` | driver_c6/mce_driver.c:142-374 | Every interrupt, timer, tasklet and system call, but the time-out of an internal DSP command, keeps the invariant across the three layers |
| `MceProtocol.RunKeepsInv` | driver_c6/mce_driver.c:142-374 | So does every run of them |
| `MceProtocol.CrossLayer` | driver_c6/mce_driver.c:142-331 | In states CON and HST the outstanding DSP command is that of the current MCE command; the DSP is reserved exactly in CON and CONOK |
| `MceProtocol.ExactlyOnce` | driver_c6/mce_driver.c:450-517 | After any run, commands accepted equal callbacks made, plus one if not idle; no outcome is ever changed or repeated |
| `MceProtocol.OwnReplyExactly` | driver_c6/mce_driver.c:291-374 | A command completed by a packet has its own reply if and only if no packet answering another command came while it was the current one and waited for a packet |
| `MceProtocol.ReadIsOwnReply` | driver_c6/mce_ops.c:130-205 | A packet read at the device completed the last accepted command, even after a forced-idle close; and it answers that command under exactly that condition |
| `MceProtocol.LateAnswerIsRead` | driver_c6/mce_driver.c:340-374 | The run that fails it: the answer to a command that timed out comes while the next one waits, and is read as the answer to that |
| `MceProtocol.ReplyWasDelivered` | driver_c6/mce_driver.c:291-374 | A reply outcome is the packet the card delivered in the step that completed the command |
| `MceProtocol.ForcedIdle` | driver_c6/mce_ops.c:393-416 | After an early close no write is accepted until the command ends, and its late callback leaves the device alone |
| `MceProtocol.TimerFrees` | driver_c6/mce_driver.c:450-475 | The timer ends the command with a time-out and frees both layers, whatever the state |
| `MceProtocol.DataFlagExactly` | driver_c6/mce_driver.c:529-600 | After any run, a frame transfer under way has its flag set; the flag says whether one is under way if and only if none has timed out since it was last set or cleared |
| `MceProtocol.CallbackKeeps` | driver_c6/mce_driver.c:163-331 | Every DSP callback keeps the invariant of the layers above |
| `MceProtocol.WriteKeepsInv` | driver_c6/mce_ops.c:240-333 | So does a write with its retries, whatever the card answers |
| `MceProtocol.PriorityKeepsInv` | driver_c6/dsp_driver.c:704-743 | The priority task forgets no request |
| `MceProgress.MovesExactly` | driver_c6/mce_driver.c:163-475 | What must happen: a table gives for every state and every event whether the command stays, goes on, and to which state, or ends, and with which outcome; every step follows it, makes a callback just at an end, and then hands the waiting device that packet or that error |
| `MceProgress.WriteExactly` | driver_c6/mce_ops.c:240-333 | A write is accepted if and only if device and MCE are idle, the command is whole, no DSP command or urgent task is in the way, and the card takes CON within 10001 tries; and which answer the client gets otherwise |
| `MceProgress.NotificationFetches` | driver_c6/mce_driver.c:213-289 | In CONOK a notification without error frees the DSP, always; then HST for this very command is outstanding if DSP and card take it; if one is busy the state is NFY and the tasklet is scheduled; if the card fails the command ends with that error |
| `MceProgress.OutcomeIsRead` | driver_c6/mce_ops.c:130-205 | While its command is open a reader waits; when it ends, every client that may see the device reads just that packet, or that error, once; on a closed channel the others see nothing |
| `MceProgress.WayThrough` | driver_c6/mce_driver.c:142-331 | Over a run from any idle state, for any number of tries for which the card is busy: accepted, CON acknowledged, notified, the tasklet run until HST is taken, HST acknowledged with packet p; every step is possible, the command is over, and the client reads p |
| `MceProgress.QuietWay` | driver_c6/mce_driver.c:334-374 | The same with the reply in the notification: the client reads it at once, and the priority task then clears the card's reply buffer and is done |
| `MceProgress.ClosingDrops` | driver_c6/mce_ops.c:393-416 | A client that asked to close cleanly and closes while its command is open gives up the outcome: the command ends as before, and nobody reads anything; otherwise closing changes nothing, and the outcome is read as above |
| `MceProgress.FramesCounted` | driver_c6/mce_driver.c:529-600 | A frame is counted just when its acknowledged transfer has the flag; a notification of the right size starts a transfer if and only if DSP and card are free, and the frame is dropped otherwise |
| `MceProgress.TasksInTurn` | driver_c6/dsp_driver.c:704-743 | One run of the priority task: the reply buffer is cleared first, else the internal command is sent, else the grant; a busy card leaves the task, an error gives it up, and it runs again if and only if one is left |
| `MceCard.MceControl.WriteDevice` | driver_c6/mce_ops.c:240-333 | A blocking write, its loop of retries included, has the effect and the answer of the machine's write, for any sequence of card states |
| `MceCard.MceControl.Handle` | driver_c6/mce_driver.c:142-600 | The handlers of the three drivers on their fields: whichever is run, the fields change as one step of the machine, the command goes on as the table of `MceProgress.MovesExactly` says, the caller gets the machine's answer, and the invariant is kept |
| `MceCard.MceControl.Run` | driver_c6/mce_driver.c:142-600 | Over any run of the handlers: reservation and outstanding DSP command are those of the MCE command, every accepted command but the open one has had one callback, outcomes stand, and a packet read is that of the last |
| `FrameRing.Frames.FrameAddress` | driver_c6/data.c:67-75 | The frame being filled goes to the slot at the head, as many frame sizes into the buffer, and that is where its data is read from, all of it inside the buffer |
| `FrameRing.DataAt` | driver_c6/data.c:358-384 | The data of frame i are the data_size bytes from i times frame_size on |
| `FrameRing.Frames.Increment` | driver_c6/data.c:97-120 | A completed frame is queued, or dropped and counted if and only if the ring is full |
| `FrameRing.DropsWhenFull` | driver_c6/data.c:97-120 | A completed frame is dropped, and counted, if and only if max_index - 1 frames wait; else one more waits, and the head goes on by one slot |
| `FrameRing.ThreeComparisons` | driver_c6/data.c:154-157 | The three comparisons count to two if and only if queued frames and advance together are at most max_index - 1 |
| `FrameRing.ContributedQueue` | driver_c6/data.c:134-168 | A batch that fits queues just its frames; any other leaves a full ring |
| `FrameRing.Frames.Contribute` | driver_c6/data.c:134-168 | The new head is always taken, and the tail moves only when the batch does not fit; the ring stays sound if and only if the head given is inside it |
| `FrameRing.Frames.TailIncrement` | driver_c6/data.c:388-400 | One frame is consumed and its partial position cleared, or nothing when empty |
| `FrameRing.TakesOne` | driver_c6/data.c:388-400 | With a frame waiting, one fewer waits, the tail goes on by one slot, and reading begins at the start of the next |
| `FrameRing.Frames.Peek` | driver_c6/data.c:358-384 | The copying loop yields the bytes and the position defined on the ring |
| `FrameRing.PeekTakesPrefix` | driver_c6/data.c:358-384 | A peek takes the next unread bytes in order, as many as asked for and available |
| `FrameRing.UnreadLength` | driver_c6/data.c:358-384 | How many bytes are unread: data_size for each frame waiting, less the part already read |
| `FrameRing.UnreadAt` | driver_c6/data.c:358-384 | Which they are: byte k is the one so far on through the data of the frames, frame by frame round the ring |
| `FrameRing.PeekTwice` | driver_c6/data.c:358-384 | With the head fixed, peeking a bytes and then b is peeking a + b |
| `FrameRing.CompleteKeepsInv` | driver_c6/data.c:97-120 | Completing a frame keeps every unread frame in its slot |
| `FrameRing.ConsumeKeepsInv` | driver_c6/data.c:388-400 | So does consuming one |
| `FrameRing.FramesConserved` | driver_c6/data.c:67-120 | Over any run, completed frames are those consumed, queued and dropped; the consumer gets the others once and in order |
| `FrameRing.FillingSparesUnread` | driver_c6/data.c:67-77 | The slot being filled is never one waiting to be read |
| `FrameBuffer.FrameSize` | driver_c7/dsp_driver.c:347-351 | The data size rounded up to a multiple of 1024, by less than 1024 |
| `FrameBuffer.FitsBytes` | driver_c7/dsp_driver.c:350-363 | A block is divided into as many frames as it has room for, and no fewer |
| `FrameBuffer.RangesFill` | driver_c7/dsp_driver.c:350-363 | For any block sizes: each range starts where the one before ends, the first at 0, and is as long as its block has room for; the last ends at n_frames |
| `FrameBuffer.ExtentsTile` | driver_c7/dsp_driver.c:376-393 | The entries of the command: each starts at the frame where the one before ends, from 0 to n_frames, and none is empty |
| `FrameBuffer.Frames.SetTransferParams` | driver_c7/dsp_driver.c:327-393 | The blocks are divided, the ring is emptied, and the command lists exactly the blocks that hold frames |
| `FrameBuffer.RangesTile` | driver_c7/dsp_driver.c:350-363 | For any block sizes the frame ranges cover 0 to n_frames |
| `FrameBuffer.RangesDisjoint` | driver_c7/dsp_driver.c:350-363 | No frame lies in two ranges |
| `FrameBuffer.Frames.FramePoll` | driver_c7/dsp_driver.c:1324-1347 | The search ends inside the blocks, and yields the offset of the frame at the tail, or -61 when forced out, or -11 when empty |
| `FrameBuffer.FrameInBlock` | driver_c7/dsp_driver.c:1336-1345 | A frame is as many frame sizes into its block as there are frames before it there, and its bytes lie within the block |
| `FrameBuffer.FramesDisjoint` | driver_c7/dsp_driver.c:1336-1345 | Distinct frames occupy disjoint bytes |
| `FrameBuffer.SamePlace` | driver_c7/dsp_driver.c:376-393 | The reader's offset is as far into its block as the bus address the card writes to, and that address is unique |
| `FrameBuffer.Frames.BufInfo` | driver_c7/dsp_driver.c:596-620 | A report in range becomes the head; a grant is scheduled if and only if four times the frames reported since the last grant are more than n_frames |
| `FrameBuffer.DueExactly` | driver_c7/dsp_driver.c:604-616 | Whether a grant is due: four times the distance from the last grant to the report is more than n_frames |
| `FrameBuffer.Frames.FrameConsume` | driver_c7/dsp_driver.c:1349-1358 | The tail advances by one frame, never past the head |
| `FrameBuffer.Frames.SendSetTailInform` | driver_c7/dsp_driver.c:415-439 | The tail is recorded as granted before it is known to be sent; nothing is when the card is disabled |
| `FrameBuffer.Frames.Handle` | driver_c7/dsp_driver.c:1297-1358 | Every ioctl, report and grant, configured or not, keeps blocks divided and indices in the ring, and changes of the ring just what is stated for it |
| `FrameBuffer.Frames.Run` | driver_c7/dsp_driver.c:1324-1347 | Over any run of them, from the unconfigured state on, every poll's search for a block ends, and the poll returns an error exactly when forced out or empty, and otherwise the place of a whole frame inside the map |
| `GrantRing.StepKeepsInv` | driver_c7/dsp_driver.c:415-454 | Every step of card and driver keeps indices, order and frames |
| `GrantRing.GrantsAreSafe` | driver_c7/dsp_driver.c:415-454 | Over any run, dspTail, last_grant, tail, head, dspHead are in this order and within n_frames - 1, even when grants fail to be sent |
| `GrantRing.NextWriteIsFree` | driver_c7/dsp_driver.c:415-454 | The slot the card writes next holds no unread frame |
| `GrantRing.ConsumedInOrder` | driver_c7/dsp_driver.c:1324-1358 | Frames are consumed in production order, none lost or repeated |
| `GrantRing.ProducesExactly` | driver_c7/dsp_driver.c:415-454 | The card's next frame is written if and only if it has room |
| `GrantRing.ReaderCatchesUp` | driver_c7/dsp_driver.c:596-620 | After any run, once the card reports and its reports come in, as many consumptions as frames are left have consumed every frame produced |
| `GrantRing.GrantCountIsExact` | driver_c7/dsp_driver.c:604-611 | The driver's modular count is the number of frames reported since the last grant |
| `GrantRing.ReportAsks` | driver_c7/dsp_driver.c:604-616 | Over any run, a report asks for a grant if and only if it makes more than a quarter of the ring reported since the last one |
| `GrantRing.NoRoomExactly` | driver_c7/dsp_driver.c:596-620 | Over every run, grants lost and messages under way included: the card has no room if and only if frames not reported, frames reported since the last grant, and frames granted but not received fill the ring |
| `GrantRing.NoRoomWhenReported` | driver_c7/dsp_driver.c:604-611 | With all frames reported and no grant failed or under way, the card has no room if and only if the driver's own count is n_frames - 1, however few frames wait |
| `GrantRing.GrantMakesRoom` | driver_c7/dsp_driver.c:1302-1305 | A grant sent and delivered then, as DSPIOCT_SET_NFRAMES sends one, leaves the card room if and only if fewer than n_frames - 1 frames are produced and not consumed |
| `GrantRing.GrantMayComeTooEarly` | driver_c7/dsp_driver.c:611-616 | Such a run: a grant at the report and the consumption after it leave an empty ring, a card without room, and no grant due |
| `GrantRing.GrantMayBeLost` | driver_c7/dsp_driver.c:415-439 | A grant that fails to be sent counts as given: the driver's count is 0 and the card has no room |
| `LineSplitter.Client.Walk` | applications/maslog/logger.c:263-276 | Complete lines are terminated in place and logged; the unfinished one is found |
| `LineSplitter.Client.Process` | applications/maslog/logger.c:253-295 | A round's processing is the byte-by-byte splitter; overflow exactly when a full buffer holds no delimiter |
| `LineSplitter.Client.Round` | interfaces/mce_library/socks.c:363-393 | Receive and process: the splitter advanced by the chunk |
| `LineSplitter.Client.Serve` | applications/maslog/logger.c:253-295 | All rounds of a connection, each taking what there is room for: what has been logged, with the piece still in the buffer, is the whole stream cut into its pieces, and no byte but the delimiters is lost, repeated or moved |
| `LineSplitter.FeedIsPieces` | applications/maslog/logger.c:253-295 | Byte by byte, the pieces are the non-empty lines cut every MAX_MSG - 1 bytes |
| `LineSplitter.LinesInTurn` | applications/maslog/logger.c:253-295 | A new line or a NUL ends a line, and nothing else does; the pieces of a stream are those of its first line and then those of the rest |
| `LineSplitter.CutPieces` | applications/maslog/logger.c:276-285 | A line is cut into pieces of 1023 bytes, the last of 1 to 1023; joined they are the line |
| `LineSplitter.FragmentationIndependent` | applications/maslog/logger.c:253-295 | For every way of cutting the stream into chunks, the log receives the pieces of the whole stream |
| `LineSplitter.NothingLost` | applications/maslog/logger.c:253-295 | No byte but the delimiters is lost, duplicated or reordered |

## Left out

- Locks, wait queues, PCI registers, DMA allocation, copies between user and kernel space, mmap, probe and remove.
- JtagScan: the twin functions for the two registers (jam_do_irscan and jam_do_drscan, jam_swap_ir and jam_swap_dr, jam_jtag_irscan and jam_jtag_drscan) are one method each, with the register as a parameter.
- JtagScan.Player.Run: padding is set as a value; the setters (applications/mce_jam/jamjtag.c:225-556) store at bit `& 0x1f` of the wrong index when start_index is not a multiple of 32.
- JtagScan: cables other than the MCE, the delay itself, and a failing malloc.
- Transport: `initialize_mce` and `close_mce`, which discards pending pairs, and errors of the MCE library.
- Aca.Uncompress: what follows a read that the stream is too short for, or a copy from before the text: the source does not stop there, and goes on with what memory holds.
- Aca.BitReader.ReadPacked: after a -1 the reader is past its buffer, and what later calls return is not stated.
- SixBit.EveryArrayHasAnInitialiser: arrays below 2^31 bytes, the range of the signed length at the head of the stream.
- SixBit.ExtractCompressed: the rearrangement of the bytes into words in the same memory, which changes nothing on a little-endian machine; `Literals.ToWords` models it into a fresh array.
- SixBit.ReadSixBits: what a write beyond the workspace does, and what follows it; a workspace that cannot be had, for which the source reports out of memory, and a failing seek.
- SixBit.ReadCompressed: the same.
- Rlc.Fill: what a write beyond the array does, and what follows it.
- Rlc.ExtractRunLength: whether a block that is itself illegal is written beyond the array before it is refused; `Rlc.ReadRunLength` likewise.
- Rlc.ReadRunLength: says whether decoding succeeds, not which of two errors it ends with: a syntax error, or an unexpected end if the program ends right behind the place where it stops.
- Literals: the stream forms of the binary and hexadecimal decoders (applications/mce_jam/jamarray.c:880-1014), which differ from the buffer forms only in `jam_get_real_char`.
- Literals.ConvertBinary: the words are a fresh array; the source reuses the statement buffer through a masked address (applications/mce_jam/jamexec.c:1033 and 1182).
- Literals.ConvertHex: the same.
- Literals.ToWords: likewise fills a fresh array; the source gathers each word over the bytes it is made of.
- Crc.OneByteChangeIsCaught: not for a change from or to a carriage return, or one that makes an earlier CRC statement or end of program appear: the check then covers another text.
- JamArithmetic: the other operators of expressions; CEIL of a division and FLOOR, whose arms look at other operands than the language means.
- MceProtocol: handles opened with O_NONBLOCK; the moment between setting OPS_CMD and sending.
- MceProtocol.StepKeepsInv: not for a time-out of an internal DSP command (driver_c6/dsp_driver.c:621), after which the driver's state is not defined.
- MceProtocol: ioctls, resets and the watcher; a command whose buffer copy fails is only refused.
- FrameRing: `data_copy_frame`, which its own comment calls broken, `data_frame_fake_stop`, and the grant that `data_tail_increment` requests.
- FrameBuffer.Frames.SetTransferParams: sending the command and its reply; sizes above 2^31 - 1024 bytes, where the 32-bit sum overflows.
- FrameBuffer.Frames.Handle: nor are such sizes among its requests, and those of `FrameBuffer.Frames.Run`.
- GrantRing: DSPIOCT_EMPTY during acquisition, a change of the frame size in the middle of a run, and the reading of the frame's bytes, taken at the moment of consumption.
- LineSplitter.Client.Receive: a failing recv, after which the source adds the whole free room to recv_idx (interfaces/mce_library/socks.c:372-390); what log_string does with a piece.
- The yacc parser, symbols, stack and heap of the Jam player, the configuration tools (mas_param, mas_var, mce_cmd, dsp_cmd), the Python and graphical programs.
