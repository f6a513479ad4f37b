# GLIP and the debug interconnect, modelled and proved

GLIP moves byte and word streams between a host and an FPGA. This project models its clock-crossing
FIFO, the circular buffer of the host library, the JTAG, UART and TCP transports on both sides, the
throughput counter, and the debug ring with its packet buffers and host interface. What is proved is
what all of them are for: the stream comes out as it went in, whatever the interleaving of clocks and
threads, the backpressure, the chunking and the timing; and where the code breaks that promise, exactly
when it does.

The state machines are written as functions from the registers before a clock edge to those after it,
beside classes that update the same registers in place and are proved to do the same. Runs are
sequences of inputs, and the main results hold for all of them. Some results are exact conditions,
because the plain property does not hold of the code:

- A JTAG response has its counts one word late if and only if the host reads fewer words than it
  writes, at least one, and the target has all of them; such a round loses or repeats data.
- The serial receiver tolerates exactly the bit lengths for which the stop bit is hit at every phase.
  The tolerance of 2% stated in `glip/src/backend_uart/logic/verilog/glip_uart_toplevel.v:26-30` holds
  from four clock cycles a bit on, and not for two or three; the code decides.
- A read of the circular buffer can be refused although it is full, if it filled up between the two
  unlocked level reads. The JTAG thread ignores such a refusal of its discard, and then sends acknowledged
  words again; a refusal of its peek ends it, and one of the UART thread's read fails an assertion. All
  three need a user who fills the buffer to the last byte, and do not happen to one who leaves room.
- The JTAG answer is misread when a piece without a separator arrives while the field end still recorded
  lies behind the start of the field: from then on the field starts before the buffer. Any answer whose
  first piece ends with the space behind its first field, and whose second piece ends before the next
  separator, does it.
- The UART host's credit does not cover its input buffer. If the user takes nothing out, the logic fills
  the buffer within its credit and sends a word more, and an assertion that only a credit message can
  arrive then fails, or, for the marker, a word is taken for credit.
- The TCP backend gathers words of up to four bytes; its shifts are undefined for wider ones. A word of
  four bytes with its top bit set arrives whole, but is read as a negative number.
- The flit buffer with whole packets loses a flit that is asked for while it is the only one, does not
  end its packet, and nothing else arrives; and with a size of one it is no queue at all.
- The logic's UART encoder leaves the reset in the middle of a word. A word that the design offers when the
  transmitter is done with it is taken without credit, and the debtor then believes to owe 32767, if and
  only if no credit has been given by then.
- The length of a JTAG transfer adapts to what goes through, but a length of one word never grows.
- The alternating merge of the debug ring alternates for packets of several flits only; packets of one
  flit can keep the other input waiting for good.
- The host interface announces a packet of eight flits with the length zero, and a longer one blocks it.

## Files

- `Modular`, `Bits`, `Sequences`, `Bytes`: arithmetic and binary numbers.
- `Levels`: the fill level of a buffer as an unlocked reader sees it.
- `GrayCode`, `CdcFifo`: the FIFO between two clock domains.
- `CircularBuffer`, `CbufThreads`: the circular buffer as a class, and under two threads.
- `JtagFifo`, `JtagInput`, `JtagOutput`, `JtagFraming`, `JtagChip`: the logic's side of the JTAG link,
  bit by bit; `JtagWords`, `JtagHost`, `JtagRounds`, `JtagHex`: the host's side; `JtagLink`: both.
- `UartReceive`, `UartTransmit`, `UartLine`, `UartTolerance`, `UartLink`: the serial line;
  `UartCodec`, `UartDebt`, `UartHost`, `UartCredit`: the protocol and its flow control.
- `DebugRing`, `RingRouter`, `RingMerge`, `DiiBuffer`, `HostInterface`: the debug interconnect.
- `Measure`: the decimal throughput counter. `GlipTcp`, `TcpLoopback`: the simulation backend.

## Model

| member | source | states |
|---|---|---|
| CdcFifo.FifoIsSafe | glip/src/backend_cypressfx2/logic/verilog/cdc/cdc_fifo.v:58-101 | from reset, for every interleaving of the two clocks and every bitwise old/new choice at the synchronisers, the words at the read port at exactly the enabled read edges with the empty flag low are the first of the words at exactly the enabled write edges with the full flag low; at most 2^ADDRSIZE are stored, and a lowered flag is never wrong |
| CdcFifo.InvKept | glip/src/backend_cypressfx2/logic/verilog/cdc/cdc_fifo.v:58-101 | one instant, with either clock or both, keeps the relation between pointers, stale knowledge, flags and memory |
| CdcFifo.KnowledgeKept | glip/src/backend_cypressfx2/logic/verilog/cdc/cdc_sync_rd2wr.v:42-53 | what a domain knows of the other side is an older count, bounded by the capacity, and the registered flags are exact for that knowledge |
| CdcFifo.SampleIsOldOrNew | glip/src/backend_cypressfx2/logic/verilog/cdc/cdc_sync_wr2rd.v:41-52 | a sample taken while the pointer changes is the old or the new pointer, never a third value |
| CdcFifo.FullFlagExact | glip/src/backend_cypressfx2/logic/verilog/cdc/cdc_wrptr_full.v:56-65 | for counts that differ by at most the capacity, the full test holds exactly when they differ by the capacity |
| CdcFifo.EmptyFlagExact | glip/src/backend_cypressfx2/logic/verilog/cdc/cdc_rdptr_empty.v:62-67 | for counts that differ by at most the capacity, the empty test holds exactly when they are equal |
| CdcFifo.BacklogKept | glip/src/backend_cypressfx2/logic/verilog/cdc/cdc_fifo_mem.v:45-53 | a word delivered is the oldest one outstanding, and a write never reaches a slot still in use |
| CdcFifo.BothClocksSplit | glip/src/backend_cypressfx2/logic/verilog/cdc/cdc_fifo.v:64-101 | two edges at the same instant have the effect of a read edge and a write edge with the same samples |
| CdcFifo.FlagsSettle | glip/src/backend_cypressfx2/logic/verilog/cdc/cdc_wrptr_full.v:67-73 | after any run from reset, once the other side rests, three own clock edges make the full and the empty flag exact |
| CdcFifo.Fifo.WriteClock | glip/src/backend_cypressfx2/logic/verilog/cdc/cdc_wrptr_full.v:46-73 | a write clock edge: all registers of the write domain and the memory |
| CdcFifo.Fifo.ReadClock | glip/src/backend_cypressfx2/logic/verilog/cdc/cdc_rdptr_empty.v:52-76 | a read clock edge: all registers of the read domain and the word at the read port |
| GrayCode.GrayInjective | glip/src/backend_cypressfx2/logic/verilog/cdc/cdc_rdptr_empty.v:62-63 | different binary pointers have different Gray codes |
| GrayCode.GraySuccFlipsOneBit | glip/src/backend_cypressfx2/logic/verilog/cdc/cdc_wrptr_full.v:56-57 | consecutive Gray pointers, the wrap included, differ in exactly one bit |
| GrayCode.MixOfSuccessorsIsOneOfThem | glip/src/backend_cypressfx2/logic/verilog/cdc/cdc_sync_rd2wr.v:42-53 | any bitwise mix of two consecutive Gray pointers is one of the two |
| GrayCode.FullTestExact | glip/src/backend_cypressfx2/logic/verilog/cdc/cdc_wrptr_full.v:59-65 | the full test on Gray codes holds exactly when the binary pointers are half the pointer range apart |
| GrayCode.EmptyTestExact | glip/src/backend_cypressfx2/logic/verilog/cdc/cdc_rdptr_empty.v:65-67 | the empty test on Gray codes holds exactly when the binary pointers are equal |
| CircularBuffer.CBuf.constructor | glip/src/cbuf.c:204-240 | a buffer of any power of two as its size is empty at first |
| CircularBuffer.CBuf.Write | glip/src/cbuf.c:323-348 | accepts a write exactly when it fits, and appends its bytes in order |
| CircularBuffer.CBuf.Read | glip/src/cbuf.c:483-514 | accepts a read exactly when enough is stored, and removes and returns the oldest bytes |
| CircularBuffer.CBuf.Reserve | glip/src/cbuf.c:381-419 | hands out space exactly when it is free, in place or in a temporary buffer that is large enough and never shrinks |
| CircularBuffer.CBuf.Commit | glip/src/cbuf.c:432-462 | appends the first bytes of the reservation, fewer than reserved if wanted, and touches no stored byte |
| CircularBuffer.CBuf.Peek | glip/src/cbuf.c:541-585 | shows the oldest bytes, in place or in a temporary buffer that is large enough and never shrinks, and changes nothing |
| CircularBuffer.CBuf.Discard | glip/src/cbuf.c:603-615 | removes the oldest bytes exactly when so many are stored |
| CircularBuffer.CopyBack | glip/src/cbuf.c:443-456 | the copy of the fixed length up to the end of the array, and of the rest, lands behind the stored bytes only |
| CircularBuffer.CalcBufsize | glip/src/cbuf.c:179-192 | the size of a temporary buffer: the next larger power of two, but at most the maximum |
| CircularBuffer.FillLevel | glip/src/cbuf.c:657-668 | the fill level computed from the two pointers is the number of stored bytes |
| CircularBuffer.MasksAreWraps | glip/src/cbuf.c:164-167 | on power-of-two sizes the bit masks and the exclusive or are the wraps of the pointer arithmetic |
| CbufThreads.ReadIsPrefixOfWritten | glip/src/cbuf.c:323-348 | for every interleaving of the two threads' steps, the bytes handed to the reader's callers are the first of those that the writer's calls publish, and the buffer holds the rest |
| CbufThreads.StoredChanges | glip/src/cbuf.c:489-520 | what is stored grows by exactly the bytes published in a step and shrinks by exactly those consumed |
| CbufThreads.LatestCallIsServed | glip/src/cbuf.c:489-520 | a thread works on the bytes and the size of its latest call |
| CbufThreads.ThreadsGoOn | glip/src/cbuf.c:489-520 | neither thread ever waits for the other: every call returns after finitely many of its own steps |
| CbufThreads.TwoReadLevel | glip/src/cbuf.c:657-668 | the two unlocked pointer reads never overstate data to the reader nor free space to the writer |
| CbufThreads.RefusalsExact | glip/src/cbuf.c:657-683 | under interference a write is refused exactly when it does not fit, and a read exactly when too little is stored or the buffer became full between the two reads |
| CbufThreads.ReaderDecidesByLevelSeen | glip/src/cbuf.c:657-668 | whether a read, peek or discard is refused depends on a level that is the whole size if the buffer was full at the first read, zero if it filled up by the second, and exact otherwise |
| CbufThreads.SpuriousEmptyIsReachable | glip/src/cbuf.c:657-668 | a reader can see an empty level in a full buffer; a run that gets there |
| CbufThreads.InvKept | glip/src/cbuf.c:432-462 | every step of either thread, commits and discards of less than was handed out included, keeps the shared state consistent |
| JtagFifo.ShiftRegisterIsQueue | glip/src/backend_jtag/logic/verilog/glip_jtag_fifo.v:71-110 | the one-hot shift register is a queue of LENGTH places, also with a push and a pop in the same cycle |
| JtagFifo.RunConserves | glip/src/backend_jtag/logic/verilog/glip_jtag_fifo.v:71-110 | from the reset on, in every run, the flits that came out followed by those stored are the flits that went in |
| JtagFifo.Fifo.Clock | glip/src/backend_jtag/logic/verilog/glip_jtag_fifo.v:71-110 | a clock edge of the FIFO, its array shifted in place |
| JtagInput.Input.Clock | glip/src/backend_jtag/logic/verilog/glip_jtag_input_fsm.v:112-244 | a clock edge of the request parser and the word it passes on |
| JtagInput.DataWord | glip/src/backend_jtag/logic/verilog/glip_jtag_input_fsm.v:180-208 | a data word is passed on exactly if there is room in its last cycle; otherwise it and everything after it is dropped |
| JtagInput.ScanAccepts | glip/src/backend_jtag/logic/verilog/glip_jtag_input_fsm.v:112-225 | over a whole scan the words passed on are the longest prefix for which there was room, and the accepted count is its length from then on |
| JtagInput.NextScanAccepts | glip/src/backend_jtag/logic/verilog/glip_jtag_input_fsm.v:112-241 | the same of every scan behind an update and a capture, whatever the scan before it has left behind |
| JtagInput.ResetIffAllOnes | glip/src/backend_jtag/logic/verilog/glip_jtag_input_fsm.v:138-159 | in a scan the reset signal is raised for one cycle behind a header of all ones, and at no other time |
| JtagOutput.Output.Clock | glip/src/backend_jtag/logic/verilog/glip_jtag_output_fsm.v:104-320 | a clock edge of the response generator, the bit it sends and the pop of the FIFO |
| JtagOutput.PhaseAdvances | glip/src/backend_jtag/logic/verilog/glip_jtag_output_fsm.v:187-240 | bit-serial sending refines a machine on words: which word follows, and that the FIFO is popped exactly when it is data |
| JtagOutput.WaitsForShift | glip/src/backend_jtag/logic/verilog/glip_jtag_output_fsm.v:118-281 | without the shift signal the words and zeros wait and nothing is popped, while lengths and counts go on |
| JtagOutput.PhaseWordSent | glip/src/backend_jtag/logic/verilog/glip_jtag_output_fsm.v:187-281 | the bits sent during a word are the data word, zeros, the accepted count or the sent count |
| JtagOutput.BitsAreResponse | glip/src/backend_jtag/logic/verilog/glip_jtag_output_fsm.v:187-281 | the bits of the scan are the words of the word-level machine |
| JtagFraming.ResponseIs | glip/src/backend_jtag/logic/verilog/glip_jtag_output_fsm.v:154-281 | the response after the header: data, zeros, and the two counts in the last two words, or the counts one word late |
| JtagFraming.LateIff | glip/src/backend_jtag/logic/verilog/glip_jtag_output_fsm.v:187-204 | the counts are late if and only if fewer words are read than written, at least one, and the FIFO has a word every time it is asked |
| JtagFraming.PopsAreTaken | glip/src/backend_jtag/logic/verilog/glip_jtag_output_fsm.v:187-240 | the words popped from the FIFO are exactly the words sent, in order |
| JtagFraming.ScanAnswers | glip/src/backend_jtag/logic/verilog/glip_jtag_output_fsm.v:118-281 | bit for bit over a whole scan: data as popped, at most as many as requested, zeros, then the counts, with the exact condition for late counts |
| JtagFraming.NextScanAnswers | glip/src/backend_jtag/logic/verilog/glip_jtag_output_fsm.v:118-281 | the same of every scan behind an update, whatever the scan before it has left behind |
| JtagChip.InputAccepts | glip/src/backend_jtag/logic/verilog/glip_jtag_input_fsm.v:180-208 | the input takes a prefix of the words written and shows its length to the output in time |
| JtagChip.ChipReplies | glip/src/backend_jtag/logic/verilog/glip_jtag_output_fsm.v:118-281 | input and output on the same scan: the reply holds the words given and the number of words taken |
| JtagWords.HeaderUnderstood | glip/src/backend_jtag/sw/backend_jtag.c:970-988 | the logic reads a length as the host wrote it if and only if it fits a word of at most four bytes, or is zero |
| JtagWords.NumbersSurvive | glip/src/backend_jtag/sw/backend_jtag.c:970-997 | a number written to a word and read back is the same if and only if it fits, for words of up to four bytes |
| JtagWords.WideWordIs | glip/src/backend_jtag/sw/backend_jtag.c:984-997 | in wider words only the low byte of a number is kept, four bytes below the top |
| JtagWords.CountsAreRead | glip/src/backend_jtag/sw/backend_jtag.c:990-997 | a count sent bit by bit by the logic is read as that number |
| JtagHost.NextWanted | glip/src/backend_jtag/sw/backend_jtag.c:886-899 | the next transfer length is half as much again if more than nine tenths of the words sent, or at least nine tenths of those asked for, went through; else three tenths if at most half of each did; else the same; cut to the least length and the limits, which keep the header from being all ones |
| JtagHost.LengthAdapts | glip/src/backend_jtag/sw/backend_jtag.c:886-899 | transfers that keep failing bring the length down to the least one, and those that keep going through bring it up to the limit if and only if it is not one word with no larger one demanded |
| JtagHost.TransferIsPossible | glip/src/backend_jtag/sw/backend_jtag.c:942-958 | no more words are written than stored, none requested that cannot be stored, and no header is all ones |
| JtagHost.PayloadIsLargest | glip/src/backend_jtag/sw/backend_jtag.c:942-958 | both lengths are the largest possible; neither direction takes anything from the other |
| JtagHost.Host.CalcPayloadLen | glip/src/backend_jtag/sw/backend_jtag.c:942-958 | each length is the largest that is wanted and fits: the words of the level seen, and the room to read |
| JtagHost.Host.BuildRequest | glip/src/backend_jtag/sw/backend_jtag.c:1011-1048 | the request is two lengths, the oldest bytes of the write buffer and zeros; or the buffer for it is too small and unchanged; or, exactly if the level seen is too low, the data is refused |
| JtagHost.Host.Prepare | glip/src/backend_jtag/sw/backend_jtag.c:862-871 | the buffer grows until the request fits; this ends, with a request or, exactly if the level seen is too low, with a refusal |
| JtagHost.Host.ParseResponse | glip/src/backend_jtag/sw/backend_jtag.c:1050-1062 | acknowledged bytes are discarded as far as the level seen allows, after whatever the user wrote meanwhile, and read bytes are stored if there is room |
| JtagHost.RequestIsUnderstood | glip/src/backend_jtag/sw/backend_jtag.c:1011-1048 | the bytes of a request are, word by word, what the logic understands as that request |
| JtagRounds.CountsSeen | glip/src/backend_jtag/sw/backend_jtag.c:1056-1057 | the host reads the counts that were sent, or, if they are late, zero acknowledged and the accepted count as words read |
| JtagRounds.InvKept | glip/src/backend_jtag/sw/backend_jtag.c:864-885 | a step of the user or of the thread, with counts in place and its discard granted, loses, repeats and reorders nothing in either direction, whatever part is acknowledged |
| JtagRounds.RoundConservesIff | glip/src/backend_jtag/sw/backend_jtag.c:1050-1062 | whatever the user writes in between, a round conserves both byte streams if and only if its counts are not late and it is not the case that words have been acknowledged and the user fills the buffer exactly between the two reads of the discard |
| JtagRounds.LateRoundExists | glip/src/backend_jtag/logic/verilog/glip_jtag_output_fsm.v:201-203 | a round with late counts is reached from the start: two bytes written, a target of two words, and room to read one |
| JtagRounds.RefusedRoundExists | glip/src/backend_jtag/sw/backend_jtag.c:1059-1059 | a round that repeats an acknowledged word although its counts are in place is reached from the start |
| JtagRounds.RefusedRequestExists | glip/src/backend_jtag/sw/backend_jtag.c:1036-1041 | a refused peek that ends the thread is reached from the start |
| JtagRounds.TransferIsReliable | glip/src/backend_jtag/sw/backend_jtag.c:864-899 | over every interleaving of the user with the single steps of the thread, as long as counts are in place and discards are granted: the bytes of all writes of the user are those of the words the target takes and those still to be sent, and the bytes of all words the target gives are those the user reads and those he can read, in order; the transfer length stays within its bounds |
| JtagRounds.UndisturbedRequest | glip/src/backend_jtag/sw/backend_jtag.c:864-872 | with nobody writing in between, the request asks for the largest lengths and holds the first words stored |
| JtagRounds.UndisturbedRoundMoves | glip/src/backend_jtag/sw/backend_jtag.c:1054-1075 | then, with the counts in place, exactly the words the target takes leave the buffer, and exactly those it gives are stored |
| JtagRounds.RoomyUserIsSafe | glip/src/backend_jtag/sw/backend_jtag.c:864-885 | if the user always leaves a byte of room, counts in place are enough for that, and the thread never ends |
| JtagRounds.ValidKept | glip/src/backend_jtag/sw/backend_jtag.c:862-899 | every step, whatever its counts and refusals, leaves the thread with lengths that fit both buffers and are never all ones |
| JtagLink.ScanIsTransfer | glip/src/backend_jtag/sw/backend_jtag.c:864-884 | a bit-level scan of the request is a step of the transfer: the words pushed are the first bytes of the write buffer, and the bits returned are the response |
| JtagHex.DecodeInvertsEncode | glip/src/backend_jtag/sw/backend_jtag.c:793-801 | a field of any bytes survives hexadecimal encoding and decoding |
| JtagHex.EitherCaseDecodes | glip/src/backend_jtag/sw/backend_jtag.c:718-731 | a field in upper case, or in both, decodes to the same bytes |
| JtagHex.ByteIsNumber | glip/src/backend_jtag/sw/backend_jtag.c:718-731 | two characters, whatever they are, give the number at their start, after blanks and a sign, cut to a byte |
| JtagHex.WriteRequest | glip/src/backend_jtag/sw/backend_jtag.c:785-804 | the request is cut into fields of at most four bytes that together decode to it |
| JtagHex.HexStringToBytes | glip/src/backend_jtag/sw/backend_jtag.c:701-731 | decodes a field from its end, so that the first byte out is the last pair of digits, and touches no byte before |
| JtagHex.AnswerGivesBytes | glip/src/backend_jtag/sw/backend_jtag.c:655-679 | an answer of encoded fields gives back their bytes, in order, and is complete |
| JtagHex.LongAnswerAborts | glip/src/backend_jtag/sw/backend_jtag.c:662-668 | an answer of encoded fields fails the assertion if and only if it has more bytes than asked for |
| JtagHex.OddFieldAborts | glip/src/backend_jtag/sw/backend_jtag.c:700-703 | and so does a field of odd length |
| JtagHex.PieceIsReadIff | glip/src/backend_jtag/sw/backend_jtag.c:655-685 | a piece of the answer is read correctly if and only if it holds a separator, or the field end still recorded does not lie behind the start of the field, and it is misread exactly if afterwards the field starts before the buffer |
| JtagHex.MisreadExists | glip/src/backend_jtag/sw/backend_jtag.c:682-684 | every answer of two fields, read well in one go, is misread if it is cut behind the space and behind the second field: the field then starts before the buffer |
| JtagHex.AnswerReader.Receive | glip/src/backend_jtag/sw/backend_jtag.c:644-685 | after every piece the response holds the bytes of all the text so far read in one go, although the buffer has been moved in place |
| JtagHex.AnswerReader.GrowIfNeeded | glip/src/backend_jtag/sw/backend_jtag.c:639-642 | the buffer grows before a read could be offered no room, and keeps its contents |
| JtagHex.ReadAnswer | glip/src/backend_jtag/sw/backend_jtag.c:619-689 | for every way to cut the answer in which each piece after the first separator holds one, the bytes are those of the answer read in one go, up to its end or a field that fails an assertion |
| UartReceive.Receiver.Clock | glip/src/backend_uart/logic/verilog/glip_uart_receive.v:92-160 | a clock edge of the receiver and its outputs |
| UartReceive.FrameHeard | glip/src/backend_uart/logic/verilog/glip_uart_receive.v:120-158 | from a falling edge the receiver takes eight samples at equal distances and a ninth that decides between byte and error, and is ready again |
| UartReceive.FramesAreHeard | glip/src/backend_uart/logic/verilog/glip_uart_receive.v:120-158 | frame after frame, without drift, everything is reported in order |
| UartTransmit.Transmitter.Clock | glip/src/backend_uart/logic/verilog/glip_uart_transmit.v:72-137 | a clock edge of the transmitter and its outputs |
| UartLine.AllBitsTolerated | glip/src/backend_uart/logic/verilog/glip_uart_toplevel.v:26-30 | if the stop bit is always hit, so is every data bit |
| UartLine.ToleratedSuffices | glip/src/backend_uart/logic/verilog/glip_uart_receive.v:77-160 | for a tolerated bit length every byte sequence, gap and phase is received exactly, without framing error |
| UartTolerance.ToleranceExact | glip/src/backend_uart/logic/verilog/glip_uart_receive.v:77-160 | every line is received exactly if and only if nine bits end before the last possible sample and ten after it, for a divisor of at least two |
| UartTolerance.TwoPercentFromFour | glip/src/backend_uart/logic/verilog/glip_uart_toplevel.v:26-30 | the promised tolerance of 2% holds for divisors from four on and for no smaller one |
| UartLink.WireIsLine | glip/src/backend_uart/logic/verilog/glip_uart_transmit.v:72-137 | in continuous time the transmitter drives exactly start bit, data bits and stop bit of every frame it begins |
| UartLink.BegunIsSpaced | glip/src/backend_uart/logic/verilog/glip_uart_transmit.v:96-135 | frames begin at least ten bit lengths apart |
| UartLink.EverythingBegins | glip/src/backend_uart/logic/verilog/glip_uart_transmit.v:96-135 | a source that is always enabled gets a byte out every ten bits and one idle cycle |
| UartLink.LinkDelivers | glip/src/backend_uart/logic/verilog/glip_uart_toplevel.v:197-228 | transmitter, wire and receiver with unrelated clocks: at any time the bytes received are the first of those offered, in order, and all that have been begun once the last frame is over |
| UartCodec.IngressInvertsHost | glip/src/backend_uart/logic/verilog/glip_uart_control_ingress.v:99-168 | any sequence of data bytes, credit tranches below 2^14 and reset messages encoded by the host is decoded to the same sequence without error |
| UartCodec.IngressIsPrefix | glip/src/backend_uart/logic/verilog/glip_uart_control_ingress.v:99-168 | at any moment the messages decoded are a prefix of those sent |
| UartCodec.IngressDecoder.Clock | glip/src/backend_uart/logic/verilog/glip_uart_control_ingress.v:80-168 | a clock edge of the decoder and its outputs; a byte that should have been a repeated marker raises the error and is passed on |
| UartCodec.ErrorIffNotRepeated | glip/src/backend_uart/logic/verilog/glip_uart_control_ingress.v:127-136 | the error is raised exactly for a byte behind a marker with its low bit clear that does not repeat the marker |
| UartCodec.ReadInvertsLogic | glip/src/backend_uart/sw/backend_uart.c:1047-1052 | any sequence of data bytes and 15-bit credits encoded by the logic is read as the same sequence |
| UartCodec.EgressEncoder.Clock | glip/src/backend_uart/logic/verilog/glip_uart_control_egress.v:75-155 | a clock edge of the encoder and its outputs |
| UartCodec.EncoderInvKept | glip/src/backend_uart/logic/verilog/glip_uart_control_egress.v:95-155 | the bytes sent are always the encoding of what was accepted, up to the message under way |
| UartCodec.HostReadsAccepted | glip/src/backend_uart/logic/verilog/glip_uart_control_egress.v:95-155 | whatever the timing, the host reads exactly what the encoder accepted, but for a marker word whose repetition is still to come |
| UartCodec.DataIsStable | glip/src/backend_uart/logic/verilog/glip_uart_control_egress.v:95-155 | a byte stays on the data output unchanged until the transmitter is done with it |
| UartDebt.Debtor.Clock | glip/src/common/logic/credit/verilog/debtor.v:46-72 | a clock edge of the counter of what the logic may send, in 15 bits, and its outputs |
| UartDebt.DebtorCounts | glip/src/common/logic/credit/verilog/debtor.v:57-70 | the register is the sum of what was owed, lent and paid back, cut to 15 bits, and the error says that it was cut, unless both happen at once |
| UartDebt.BeginsWordIff | glip/src/backend_uart/logic/verilog/glip_uart_control_egress.v:96-103 | the encoder begins a word exactly when it is idle, has credit and a word, and no credit is to be sent |
| UartDebt.EnabledIff | glip/src/backend_uart/logic/verilog/glip_uart_control_egress.v:95-155 | only the repetition of a marker waits for credit of its own |
| UartDebt.WordIsPutOut | glip/src/backend_uart/logic/verilog/glip_uart_control_egress.v:100-107 | a word that may be begun has its byte on the output, enabled, in the next cycle |
| UartDebt.SendsWithinCredit | glip/src/backend_uart/logic/verilog/glip_uart_control.v:179-201 | in every run of encoder and debtor from the idle state the words begun, a doubled marker being one, never exceed the credit given, and the debtor counts exactly what is left |
| UartDebt.NoDebtorError | glip/src/common/logic/credit/verilog/debtor.v:59-71 | and its error output stays low |
| UartDebt.ResetOverdrawsIff | glip/src/backend_uart/logic/verilog/glip_uart_control_egress.v:75-79 | the reset leaves the encoder in the middle of a word; a word offered when the transmitter is done is taken without credit, and the debtor wraps round, if and only if no credit has been given by then |
| UartDebt.AfterwardsCovered | glip/src/backend_uart/logic/verilog/glip_uart_control.v:179-201 | from any state but the middle of a word, the debtor changes by exactly what is lent and what is taken |
| UartDebt.Creditor.Clock | glip/src/common/logic/credit/verilog/creditor.v:50-84 | a clock edge of the counter of free places, and its grant |
| UartDebt.GrantIsLargest | glip/src/common/logic/credit/verilog/creditor.v:72-85 | a grant is as large as there are free places and bits for it |
| UartDebt.CreditorConserves | glip/src/common/logic/credit/verilog/creditor.v:50-84 | over every run the places not granted and those granted and not paid back are all there are |
| UartDebt.CycleIsSteps | glip/src/backend_uart/logic/verilog/glip_uart_control.v:179-201 | whatever encoder and debtor do in a cycle is a possible run of the logic's steps in the flow control, with the same effect on its credit |
| UartDebt.OrderIsStep | glip/src/backend_uart/logic/verilog/glip_uart_control.v:203-223 | and so is what the creditor does |
| UartHost.Host.ParseBuffer | glip/src/backend_uart/sw/backend_uart.c:799-858 | a chunk with the up to two bytes read behind it is parsed as whole messages: words to the buffer, credits to the debt, one credit used a word, no more words than bytes in the chunk |
| UartHost.CutsDoNotMatter | glip/src/backend_uart/sw/backend_uart.c:799-858 | for every way to cut the stream into chunks the messages are those of the bytes used, read in one go, and every call ends between messages |
| UartHost.AnyTwoCutsAgree | glip/src/backend_uart/sw/backend_uart.c:799-858 | two ways to cut the same stream give the same data and debt |
| UartHost.WordsFitChunk | glip/src/backend_uart/sw/backend_uart.c:896-905 | a call never yields more words than its chunk has bytes |
| UartHost.Host.WriteWords | glip/src/backend_uart/sw/backend_uart.c:909-934 | as many words are sent as the level seen, the debt and the buffer permit, with the marker doubled, whatever the user writes during the first level read, before the second and during it; nothing if he fills the buffer during the first, and the assertion fails exactly if he fills it during the second with something to send |
| UartHost.Host.TopUp | glip/src/backend_uart/sw/backend_uart.c:937-943 | new credit is given exactly below the threshold |
| UartHost.Host.SendCredit | glip/src/backend_uart/sw/backend_uart.c:1054-1069 | the three bytes of a credit message |
| UartHost.Host.Round | glip/src/backend_uart/sw/backend_uart.c:886-943 | a round of the thread keeps the credit within its bounds, accounts for every byte, and writes whole commands only, at most 256 words and then the credit due; it is aborted exactly if the user fills the output buffer during the second level read with something to send, never if he leaves room |
| UartHost.FillingUserAborts | glip/src/backend_uart/sw/backend_uart.c:909-919 | every host that may send is aborted by a user who writes words and fills the buffer while they are about to be read; `UartHost.AbortExists` runs it after the reset |
| UartHost.Host.constructor | glip/src/backend_uart/sw/backend_uart.c:1100-1125 | after the reset the buffers are empty, the first credit is on its way, and the debt is the first tranche of the logic, also behind a trash byte |
| UartHost.Host.FullRound | glip/src/backend_uart/sw/backend_uart.c:886-943 | a round in which a byte arrives although the input buffer is full: aborted exactly if the byte is no marker or the user fills the output buffer as above; otherwise the two bytes behind the marker are taken for credit |
| UartHost.CreditOnlyIff | glip/src/backend_uart/sw/backend_uart.c:888-897 | that is right exactly if the next message is a credit message: a word fails the assertion, and the doubled marker is taken for credit |
| UartCredit.CreditIsSafe | glip/src/backend_uart/sw/backend_uart.c:937-943 | in every reachable state credit is conserved in both directions, the credit of the host is between 16127 and 32767, the 15-bit debt of the logic does not overflow, and its input buffer never overflows |
| UartCredit.InvKept | glip/src/backend_uart/logic/verilog/glip_uart_control.v:177-218 | every step of host or logic keeps the credit equations and bounds |
| UartCredit.ParserHasCredit | glip/src/backend_uart/sw/backend_uart.c:810 | the parser has credit for every word it is given |
| UartCredit.RoundIsRun | glip/src/backend_uart/sw/backend_uart.c:886-943 | taking these messages, writing these words and topping up is a possible run of the steps of the host, with this effect on counters and lines |
| UartCredit.HostRound | glip/src/backend_uart/sw/backend_uart.c:886-943 | a round of the thread on bytes is such a run: conservation of credit gives the credit its parser needs, and wherever the bytes are cut no message waits forever |
| UartCredit.FullBufferReached | glip/src/backend_uart/sw/backend_uart.c:887-893 | from the reset a run within all credits fills the input buffer and has a word more on its way, in a host whose counters and bytes match; by `UartHost.Host.FullRound` the assertion fails there |
| UartCredit.RepetitionIsNotStarved | glip/src/backend_uart/logic/verilog/glip_uart_control_egress.v:122-129 | while the host waits for the repetition of a marker, the logic has credit to send it, or it is on its way |
| DebugRing.RingDelivers | osd-hardware/interconnect/verilog/debug_ring.sv:17-48 | for any number of ports and any backpressure a port receives whole packets in one piece, only its own, from each source in order, none lost or doubled; a flit passes at most as many buffers as there are ports |
| DebugRing.InvKept | osd-hardware/interconnect/verilog/ring_router.sv:27-85 | a cycle of the whole ring keeps packets together at every buffer, switch and output |
| DebugRing.SwitchByDestination | osd-hardware/interconnect/verilog/ring_router_demux.sv:24-48 | the demultiplexer sends every flit of a packet where its header says |
| DebugRing.MuxKept | osd-hardware/interconnect/verilog/ring_router_mux.sv:22-71 | the priority merge does not mix packets, also when it is locked without a transfer |
| DebugRing.RrKept | osd-hardware/interconnect/verilog/ring_router_mux_rr.sv:22-86 | the alternating merge does not mix packets |
| RingMerge.OtherIsNext | osd-hardware/interconnect/verilog/ring_router_mux_rr.sv:31-88 | from reset on, until the last flit of a packet of several nothing else is served, and in the cycle after it a flit that waits at the other input is |
| RingMerge.LongPacketsAlternate | osd-hardware/interconnect/verilog/ring_router_mux_rr.sv:31-88 | while both inputs keep offering packets of several flits, no two consecutive ones at the output come from the same input |
| RingMerge.SomethingIsServed | osd-hardware/interconnect/verilog/ring_router_mux_rr.sv:30-88 | no ready cycle is lost: while both inputs offer, exactly one flit is transferred |
| RingMerge.SingleFlitsStarve | osd-hardware/interconnect/verilog/ring_router_mux_rr.sv:32-47 | while the first input keeps offering packets of one flit, the second is never served |
| RingMerge.RingIsFirst | osd-hardware/interconnect/verilog/ring_router_mux.sv:30-76 | after the last flit of a packet a flit on the ring is served first, and a local one only if there is none |
| RingMerge.ChoiceHolds | osd-hardware/interconnect/verilog/ring_router_mux.sv:41-49 | a packet chosen while the output was not ready keeps its place before the ring |
| RingMerge.AlternatingChoiceHolds | osd-hardware/interconnect/verilog/ring_router_mux_rr.sv:40-48 | the same of the alternating merge |
| DebugRing.StoredMoves | osd-hardware/interconnect/verilog/debug_ring.sv:17-48 | in a cycle the flits between two ports move along the line in order, none lost and none added |
| DebugRing.SomethingMoves | osd-hardware/interconnect/verilog/debug_ring.sv:40-48 | the ring does not lock up: while the ports are willing and something is left, a flit moves |
| DebugRing.WorkFalls | osd-hardware/interconnect/verilog/debug_ring.sv:17-48 | every move uses up some of the remaining work |
| DebugRing.RingFlitMoves | osd-hardware/interconnect/verilog/ring_router.sv:26-87 | a flit for another port moves on in every cycle in which the next buffer has room and no local packet is being merged in |
| DebugRing.FlitIsDelivered | osd-hardware/interconnect/verilog/ring_router.sv:26-54 | a flit for the port is delivered as soon as the port is ready, nothing on the other chain is for it, and no packet of that chain is under way |
| DebugRing.LocalFlitEnters | osd-hardware/interconnect/verilog/ring_router.sv:56-75 | a local flit enters as soon as there is room, no packet of the ring is passing, and none begins to |
| DebugRing.OnlyWillingPorts | osd-hardware/interconnect/verilog/ring_router.sv:10-14 | a port that is not ready is given nothing, and nothing is taken from one that offers nothing |
| DebugRing.EverythingArrives | osd-hardware/interconnect/verilog/debug_ring.sv:17-48 | however the ports behave in between, once there have been enough cycles in which all were willing every packet has arrived |
| DebugRing.PacketStreamIsWorkload | osd-hardware/interconnect/verilog/ring_router_demux.sv:24-25 | packets of words with the destination in the low ten bits of the first are traffic the ring delivers |
| RingRouter.RouterDemux.Clock | osd-hardware/interconnect/verilog/ring_router_demux.sv:19-46 | a clock edge of the demultiplexer, its outputs and its ready signal |
| RingRouter.RouterMux.Clock | osd-hardware/interconnect/verilog/ring_router_mux.sv:22-71 | a clock edge of the priority merge; it takes from one input at a time and passes on what it takes |
| RingRouter.RouterMuxRr.Clock | osd-hardware/interconnect/verilog/ring_router_mux_rr.sv:22-86 | a clock edge of the alternating merge; it takes from one input at a time and passes on what it takes |
| DiiBuffer.PlainModeIsQueue | osd-hardware/blocks/buffer/verilog/dii_buffer.sv:28-50 | for a size of at least two the buffer is a bounded queue, also with a push and a pop in the same cycle |
| DiiBuffer.SizeOneIsNoQueue | osd-hardware/blocks/buffer/verilog/dii_buffer.sv:28-46 | with a size of one a flit that has been taken can stay in the buffer |
| DiiBuffer.FullPacketModeIsQueue | osd-hardware/blocks/buffer/verilog/dii_buffer.sv:52-82 | with whole packets only the buffer is a bounded queue if and only if it is not the case that a flit is asked for while it is the only one, does not end its packet, and nothing arrives; then it is lost |
| DiiBuffer.FlitLostExists | osd-hardware/blocks/buffer/verilog/dii_buffer.sv:28-64 | two clock edges after the reset a flit is gone that was never offered |
| DiiBuffer.PacketSizeExact | osd-hardware/blocks/buffer/verilog/dii_buffer.sv:66-77 | the size output is the length of the oldest complete packet, whatever arrives behind it |
| DiiBuffer.Buffer.Clock | osd-hardware/blocks/buffer/verilog/dii_buffer.sv:28-82 | a clock edge of the buffer, its arrays shifted in place |
| HostInterface.EgressFramesPackets | osd-hardware/modules/him/verilog/osd_him.sv:45-91 | in every run the words that pass to the host, one for each cycle with valid and ready, are the length-prefixed frames of the packets of up to seven flits that came in, in order, and all of them once no complete packet is left in the module |
| HostInterface.EgressDrains | osd-hardware/modules/him/verilog/osd_him.sv:45-79 | after any run, eighteen cycles of a willing host get every complete packet out |
| HostInterface.BytesChangePlaces | osd-hardware/modules/him/verilog/osd_him.sv:19-21 | the two bytes of a word change places |
| HostInterface.EgressInvKept | osd-hardware/modules/him/verilog/osd_him.sv:45-91 | a cycle of the egress side keeps what was sent in step with what was received |
| HostInterface.IngressInvertsFrames | osd-hardware/modules/him/verilog/osd_him.sv:16-43 | length-prefixed words become the same packets again, up to 32 flits each |
| HostInterface.LoopbackIsIdentity | osd-hardware/modules/him/verilog/osd_him.sv:16-91 | egress followed by ingress gives back the packets, with the bytes of every word swapped on the way to the host and again on the way back |
| HostInterface.EightFlitsHaveLengthZero | osd-hardware/modules/him/verilog/osd_him.sv:47-58 | the length of a packet of eight flits is sent as zero |
| HostInterface.LongPacketFills | osd-hardware/modules/him/verilog/osd_him.sv:45-79 | the first eight flits of a longer packet fill the buffer without a word being sent |
| HostInterface.LongPacketBlocks | osd-hardware/modules/him/verilog/osd_him.sv:45-79 | with that the egress side takes and sends nothing any more |
| HostInterface.Him.IngressClock | osd-hardware/modules/him/verilog/osd_him.sv:19-43 | a clock edge of the ingress side and the flit it offers |
| HostInterface.Him.EgressClock | osd-hardware/modules/him/verilog/osd_him.sv:52-79 | a clock edge of the egress side and the word it offers |
| Measure.EveryTriggerCounts | glip/src/common/logic/measure/glip_measure.v:88-116 | for any number of digits and any triggers, digits stay decimal, and digits, carries on their way and dropped carries together are the step times the triggers |
| Measure.StepCounts | glip/src/common/logic/bcdcounter/bcdcounter.v:40-60 | a clock edge adds the carry in to the value of the chain, up to the carry that leaves the last digit |
| Measure.SettledDigitsShowCount | glip/src/common/logic/measure/glip_measure.v:88-116 | after a quiet cycle a digit, the digits show the count modulo their range |
| Measure.StepUpToTen | glip/src/common/logic/bcdcounter/bcdcounter.v:33-52 | digits stay decimal in every run if and only if the step is at most ten |
| Measure.Cascade.Clock | glip/src/common/logic/bcdcounter/bcdcounter.v:52-60 | a clock edge of the whole chain in place |
| GlipTcp.GatheredWord | glip/src/backend_tcp/logic/dpi/GlipTcp.cpp:85-92 | for words of up to four bytes the low bits of the value are the bytes in big-endian order, and the whole value is, if and only if the first of four bytes is below 0x80 |
| GlipTcp.ShiftsDefinedUpToFour | glip/src/backend_tcp/logic/dpi/GlipTcp.cpp:87-88 | the shifts stay within the promoted width of a byte if and only if a word has at most four bytes |
| GlipTcp.Backend.Fetch | glip/src/backend_tcp/logic/dpi/GlipTcp.cpp:81-99 | the item is filled as far as bytes are queued, and valid once it is complete |
| GlipTcp.Backend.Emit | glip/src/backend_tcp/logic/dpi/GlipTcp.cpp:101-121 | for words of up to eight bytes the item is sent as far as there is room, resumes where it stopped, and is done once all its bytes are queued |
| GlipTcp.Backend.NextCycle | glip/src/backend_tcp/logic/dpi/GlipTcp.cpp:55-124 | a cycle: no byte is lost, doubled or reordered in either direction, and the flags say whether a word can be read or written; for longer words than four bytes if there is no byte to gather |
| GlipTcp.Backend.ReadData | glip/src/backend_tcp/logic/dpi/GlipTcp.cpp:133-136 | the word read is the big-endian word of the bytes taken |
| GlipTcp.Backend.ReadAck | glip/src/backend_tcp/logic/dpi/GlipTcp.cpp:138-142 | the word is acknowledged and the next item starts |
| GlipTcp.Backend.WriteData | glip/src/backend_tcp/logic/dpi/GlipTcp.cpp:144-150 | a new word of up to eight bytes to be sent |
| GlipTcp.ExpandInvertsBigEndian | glip/src/backend_tcp/logic/dpi/GlipTcp.cpp:85-114 | bytes grouped to a word and expanded again are the same bytes |
| GlipTcp.ExpandAt | glip/src/backend_tcp/logic/dpi/GlipTcp.cpp:106-114 | the shift and the mask pick out the bytes of the word in big-endian order |
| TcpLoopback.ReadsWhatIsWritten | glip/src/backend_tcp/logic/dpi/GlipTcp.cpp:81-121 | two backends back to back: in every run of cycles, deliveries, writes and reads, with queues full or not, the words read are the first of those written when a write was allowed, and all of them once nothing is left on the way |
| TcpLoopback.EverythingIsRead | glip/src/backend_tcp/logic/dpi/GlipTcp.cpp:81-121 | after any run, enough turns in which each end has a cycle, bytes are delivered and the reader looks have every word read |
| TcpLoopback.InvKept | glip/src/backend_tcp/logic/dpi/GlipTcp.cpp:81-150 | an event at either end or between them loses, repeats and reorders no byte |
| TcpLoopback.TurnWorks | glip/src/backend_tcp/logic/dpi/GlipTcp.cpp:81-121 | a turn leaves less work, measured by how far the bytes have to go, unless there is none |
| TcpLoopback.SignedWordsExist | glip/src/backend_tcp/logic/dpi/GlipTcp.cpp:85-92 | every word of four bytes whose top bit is set is read as another number than was written, although all its bytes arrive |

## Left out

- CircularBuffer.CBuf.Reserve: does not model a temporary buffer for 2^30 bytes or more that is not hinted at, because its size is computed in a signed 32-bit integer; failing allocations are not part of this model.
- CircularBuffer.CBuf.Read: does not model a split with 2^31 bytes or more up to the end of the array, because that length is kept in a signed 32-bit integer; the same holds for `CircularBuffer.CBuf.Peek`.
- CbufThreads: memory is sequentially consistent; the locks, condition variables and blocking waits are not part of this model.
- CdcFifo: resets happen once, before the run; metastability beyond a bitwise old/new choice is not part of this model.
- JtagRounds.TransferIsReliable: needs rounds whose counts are in place and whose discards are granted, because otherwise the property is false; `JtagRounds.RoundConservesIff` gives the exact condition, `JtagRounds.LateRoundExists` and `JtagRounds.RefusedRoundExists` rounds that break it, and `JtagRounds.RoomyUserIsSafe` what a user can do.
- JtagHost.NextWanted: does not model words of four bytes, because the shift by 32 is undefined there; the factors are exact numbers, not the nearest binary ones.
- JtagOutput: the scan is shifted without interruption and OpenOCD passes bits on unchanged; configuration discovery after a header of all ones ends the scan.
- JtagOutput: the counters are unbounded numbers, because within a scan they stay below the length read from a word of the same width.
- JtagInput: the free-space output of its FIFO is not connected and not part of this model; the error output is never raised by the parser.
- JtagHex: the command text around the hexadecimal fields is not part of this model, and neither is a read that returns no data; a failed assertion is the outcome `Aborted`.
- UartCodec: the encoder starts idle; the unsolicited byte after its reset is not part of it (`UartHost.Host.constructor` shows that the host discards one).
- UartHost: reads block until the bytes are there.
- UartCredit: the counters of the logic are those of `UartDebt`; when the logic asks for a grant is left open, and a grant may be any amount not yet lent out.
- UartDebt.SendsWithinCredit: needs a host that has less than 2^15 words of credit outstanding, which `UartCredit.CreditIsSafe` shows of this one.
- UartLine: edges are instantaneous and the line does not glitch; the receiver samples at integer times.
- DebugRing: identities are below 1024, flits and ready signals are sampled once a cycle, and buffers are the bounded queues that `DiiBuffer.PlainModeIsQueue` shows them to be; resets in traffic are not modelled.
- DiiBuffer.FullPacketModeIsQueue: its condition is met by the host interface, which never asks for a flit that is not there.
- HostInterface.EgressFramesPackets: packets have at most seven flits, because the length has three bits; `HostInterface.EightFlitsHaveLengthZero` and `HostInterface.LongPacketBlocks` show what happens beyond.
- Measure: the digits taken over at the sample, the overflow register and the one-second counter are not part of this model.
- GlipTcp.Backend.Fetch: does not model gathering to words of five to eight bytes, because the shift of their first byte by 32 bits or more is undefined; `GlipTcp.ShiftsDefinedUpToFour` draws the line. The control messages are not part of this model.
- TcpLoopback: words have at most four bytes, for which gathering is defined; writes are made only when they are allowed, as the toplevel module does.
- GlipTcp.GatheredWord: for four bytes promises the low 32 bits only, because the value is sign-extended, as the lemma says.
- Sockets, serial port set-up, USB, process control, option parsing, logging, time-outs and error messages: input and output without further state.
- The JTAG tap, the request synchroniser `cdc_rqacksync`, seven-segment displays and board files: small or fixed tables.
- The status and control registers, memory access and emulated UART modules of the debug system: register machines that would add easy members only.
- The Xilinx FIFO macros and the Boost queue are bounded queues.
