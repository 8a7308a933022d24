# Verified model of the motion-capture firmware

A model in Dafny 4.11 of eight parts of an ESP32 motion-capture marker, with proofs of
what each part is there to guarantee. `dafny verify dfyconfig.toml` checks everything;
no file includes another.

| part of the firmware | modules | main results |
|---|---|---|
| HI229 serial decoder | `Bytes`, `Gf2`, `Crc16`, `Hi229Stream`, `Hi229Payload`, `Hi229Device` | the checksum is the remainder by x^16 + x^12 + x^5 + 1; the decoder is a whole-stream scanner, however the stream is split into reads; every 16-bit burst is rejected; parsing undoes printing, with every tag, cell and divisor written out; end to end each reading is what the last item that sets it wrote |
| ellipsoid calibration | `LinearSystem`, `LeastSquares`, `Ellipsoid`, `ZeroCount` | the fit succeeds if and only if the unique least-squares minimum exists and no pass drops a pivot, and then yields it; elimination is sound for every size and swap rule; points on an ellipsoid give back that ellipsoid, and axes are finite exactly when the quadric has a point; perfect spheres that are rejected |
| ring buffer | `Arith`, `RingBuf`, `RingConcurrent` | the flat buffer is a window of an unbounded log; no torn read in any byte-level interleaving, and what an undisturbed push or peek does |
| streaming session | `Datagram`, `Session`, `SessionConcurrent` | every packet has field by field the content of a reading that was taken; lossless and in order while the lag is below the ring size, also byte by byte on the unlocked ring; everything arrives |
| BNO08x hint interrupt | `Bno08x` | reporting never stalls with the interrupt off, and always resumes; no hint without an enable, none while it is served; what every call does; which packets are lost |
| LED transmitter | `Blink` | self-synchronising for any bit string; the sequence number is received from any starting tick; when its parity can repair errors |
| button and power management | `Button`, `Power` | which clicks switch the mode, and no long press is swallowed; BLE and the save timer follow the mode; a busy device never falls asleep, with the exact bound; which devices wake up busy |
| URL parameters | `UrlDecode` | parsing inverts every encoding, with the exact condition on the key; exactly when the decoder reads past the string and when it writes past the buffer |

Code that changes state in place is modelled by classes and methods with loops
(`Decoder`, `Raw`, `Device`, `Context`, `Ring`, `Streaming`, `Transmitter`, `Isr`, `Manager`,
`UrlDecodeCopyN`, and so on). Each such method is proved against a function of the old
state, and the lemmas are about those functions. The pieces whose point is
concurrency, the unlocked ring with the session on it and the BNO08x interrupt, are state
machines in which every access to shared state is a step of its own.

How the source's types are read:

- The words of the checksum are bit strings, most significant bit first, so that the
  32-bit accumulator with its unused high half and the truncation to 16 bits are explicit.
- The calibration works over exact `real`. `n` wraps at 2^32 as in the source. Every
  square root is an arbitrary function with the defining property of a root, and results
  that are not finite are the one value `NotFinite`.
- Decoder fields are the 32-bit patterns as received, or a 16-bit reading together with
  the constant that divides it.
- Tick counters, sequence numbers and the ring's slot counter wrap as in the source;
  unbounded time appears only in the statements about them.
- Clocks, allocation results, the success of a send and of a read, dequeue latencies and
  requested modes are parameters or events of the environment.

Where the source disagrees with itself, the model follows the code:

- `tests/ellip.c:119` announces a search for the largest pivot. As the macro of line 38
  expands in line 124 the comparison is true when the current pivot is negative, or else
  when the candidate is not zero, so the pass picks the last non-zero entry and drops it
  when it is negative and not in the last row (`PivotIsLastNonZero`). `AcceptedPoints`
  says for all calibrations which ones are accepted; `PolesAreRejected` is a family of
  perfect ones that are not. Successes stay sound.
- `lib/ring_buf/ring_buf.c:100-102` says that an index greater than the head peeks the
  last item and also that it is an error. It is an error, as is the head itself; what
  peeks the newest item is a negative index or one that has left the window. A
  size of 1 is accepted although slot 1 then lies outside the buffer (`Ring.Init`).
- `lib/hi229/hi229_serial.c:131-133` divides the third Euler angle by 10 and the others by
  100, and of the single-node items only the Euler item leaves `nimu` alone.
- `components/blink/blink.c:153-156` adds the old content of each parity cell, which the
  caller never initialises (line 183). The data cells are unaffected, but the word is a
  Hamming word, with every single error repairable, if and only if all four held even
  values (`ErrorsAreRepairedIff`).
- `lib/bno08x/bno08x_driver.c:479` does not wait for room in a queue of one packet
  (line 30) and ignores the result. A packet made before its predecessor has been taken is
  lost without notice (`PacketIsLostIff`); the wait that follows can then succeed on the
  predecessor.
- `no_sleep` lives in RTC memory and no boot path clears it. A device that goes to deep
  sleep from ACTIVE therefore wakes busy and stays awake until a mode change or a request
  switches the inhibition off (`WakesBusyAfterActive`, `BootedBusyStaysAwake`).
- `parse_url_kv_pair` takes the first occurrence of the key anywhere in the URI, also in
  the path or inside another key; `RangeOf` gives the exact condition under which that
  is harmless, and `OtherValueReturned` a URI for which it is not.
- `url_decode_copyn` skips two characters behind every `%`, also behind one at the very
  end of the string, and then reads past the terminating zero (`OverreadsIff`). What it
  writes does not depend on the bytes found there.
- `parse_url_kv_pair` accepts values of up to 128 bytes, but `nvs_variable_handler` passes a
  buffer of 65 (`components/rest_controller/rest_controller_handlers.c:277` and `:299`,
  `components/sys/sys.h:124`). Encoded values from 65 bytes on overrun it
  (`FitsInIff`, `VariableBufferOverrun`); the other callers pass 129 bytes.
- A calibration without points divides by zero and still reports success, with NaN for
  every coefficient (`ZeroCount.SucceedsWithNaN`).

## Model

| member | source | states |
|---|---|---|
| `Gf2.RegisterIsRemainder` | lib/hi229/hi229_serial.c:38-54 | for every message the bit-serial register, started at zero, ends with a remainder of x^16 * M(x) by the generator: a quotient of the message length exists |
| `Gf2.RemainderUnique` | lib/hi229/hi229_serial.c:38-54 | that remainder is the only one, so the checksum is the remainder of polynomial division and not just some function of the message |
| `Gf2.FeedIsAddThenShift` | lib/hi229/hi229_serial.c:44-51 | adding up to 16 message bits at the top of the register and then clocking it that often equals feeding the bits one at a time |
| `Gf2.FeedAllLinear` | lib/hi229/hi229_serial.c:44-51 | the register is linear over GF(2) in its start value and the message together |
| `Gf2.ShiftKeepsNonZero` | lib/hi229/hi229_serial.c:46-50 | clocking is invertible: a non-zero register never becomes zero without input |
| `Gf2.BurstLeavesNonZero` | lib/hi229/hi229_serial.c:38-54 | a non-zero burst of at most 16 bits leaves the zero register non-zero, wherever it sits in a message of any length |
| `Gf2.BurstChangesRemainder` | lib/hi229/hi229_serial.c:38-54 | two messages that differ by such a burst leave different registers, from any start value |
| `Crc16.Clock` | lib/hi229/hi229_serial.c:46-50 | the low half of the 32-bit accumulator makes exactly one register step, whatever the high half holds |
| `Crc16.AccumulatorAddByte` | lib/hi229/hi229_serial.c:44 | XORing a byte at bit 8 adds its bits at the top of the register and nowhere else in the low half |
| `Crc16.AddByte` | lib/hi229/hi229_serial.c:43-51 | one byte feeds its eight bits, most significant first, to the truncated accumulator |
| `Crc16.Update` | lib/hi229/hi229_serial.c:38-54 | for every start value and message the result is the register of `Gf2` after all message bits; from zero it is the remainder of x^16 * M(x) by the generator of the next row |
| `Crc16.OneBitIsGenerator` | lib/hi229/hi229_serial.c:46-49 | the generator is x^16 + x^12 + x^5 + 1: one set bit fed to the zero register leaves 0x1021 |
| `Crc16.FeedIsClocked` | lib/hi229/hi229_serial.c:46-50 | one register step is a shift that, when the bit shifted out and the message bit differ, flips the places of 0x1021 and no others |
| `Crc16.ByteAtOnce` | lib/hi229/hi229_serial.c:43-51 | for every register and byte, eight steps amount to the byte-wise formula of this checksum: with x the top byte plus the input and t = x ^ (x >> 4), the result is (crc << 8) ^ (t << 12) ^ (t << 5) ^ t |
| `Crc16.SampleChecksum` | lib/hi229/hi229_serial.c:38-54 | the bytes 5A A5 02 00 90 07 have the checksum 0x7AC1 |
| `Crc16.UpdateComposes` | lib/hi229/hi229_serial.c:219-220 | two runs over header and payload, with truncation between them, equal one run over their concatenation |
| `Hi229Stream.Decoder.constructor` | lib/hi229/hi229_serial.c:236-242 | a zeroed decoder hunts for sync |
| `Hi229Stream.Decoder.SyncCh` | lib/hi229/hi229_serial.c:230-234 | shifts the last two bytes, touches nothing else, and reports exactly the pair 0x5A 0xA5 |
| `Hi229Stream.Decoder.DecodeCh` | lib/hi229/hi229_serial.c:214-227 | the checksum part: the payload is handed on exactly when checking is off or the checksum over everything but its own two bytes matches |
| `Hi229Stream.Decoder.Input` | lib/hi229/hi229_serial.c:236-261 | the framing part: keeps the buffer index below 512; each byte makes one step of an abstract machine that knows neither a stale length nor the bytes left in the buffer, returns 0, -1 or 1 accordingly, and leaves an accepted payload in place |
| `Hi229Stream.StepKeepsValid` | lib/hi229/hi229_serial.c:236-261 | every step keeps the machine invariant: a collected prefix starts with the sync pair and has not yet reached its announced length |
| `Hi229Stream.RunKeepsValid` | lib/hi229/hi229_serial.c:236-261 | the invariant holds after every byte stream |
| `Hi229Stream.FindSync` | lib/hi229/hi229_serial.c:230-242 | the position found is the first sync pair, and no earlier position is one |
| `Hi229Stream.DecoderIsScanner` | lib/hi229/hi229_serial.c:236-261 | for every byte stream, checked or unchecked, the decoder outputs exactly what a scanner does that sees the whole stream and cuts it at sync pairs and length fields |
| `Hi229Stream.FramesAreDelivered` | lib/hi229/hi229_serial.c:236-261 | of any well-formed frames between noise without a sync pair, the scanner delivers each payload at the last byte of its frame and nothing elsewhere |
| `Hi229Stream.EveryPayloadHasAFrame` | lib/hi229/hi229_serial.c:214-227 | round trip: every payload of at most 506 bytes has a well-formed frame, and decoding it gives back exactly that payload |
| `Hi229Stream.ReadsDoNotMatter` | lib/hi229/hi229.c:191-201 | however a stream is split into reads, state and outputs are those of the unsplit stream |
| `Hi229Stream.PollingDeliversFrames` | lib/hi229/hi229.c:191-201 | end to end: any split of such a stream into reads delivers exactly the frames sent, each at its last byte |
| `Hi229Stream.BackToHunting` | lib/hi229/hi229_serial.c:244-258 | from every valid state some prefix of at most 510 bytes leads back to hunting |
| `Hi229Stream.AcceptedIffRemainder` | lib/hi229/hi229_serial.c:214-227 | a frame is accepted if and only if its checksum field is the remainder of what it covers |
| `Hi229Stream.BurstIsRejected` | lib/hi229/hi229_serial.c:214-227 | any non-zero error burst within 16 consecutive payload bits of an accepted frame, of any length, is rejected |
| `Hi229Stream.BurstInStream` | lib/hi229/hi229_serial.c:236-261 | the same in a stream: the damaged frame yields one checksum error at its last byte, and what follows is decoded as from a fresh start |
| `Hi229Stream.SampleIsDelivered` | lib/hi229/hi229_serial.c:214-261 | behind any noise without the pair 5A A5 the frame 5A A5 02 00 C1 7A 90 07 is answered at its last byte with the payload 90 07, and nothing before |
| `Hi229Stream.RefusedIff` | lib/hi229/hi229_serial.c:244-252 | behind the sync pair a header is refused at its sixth byte if and only if its length field, low byte first, exceeds 506 |
| `Hi229Stream.UncheckedDelivers` | lib/hi229/hi229_serial.c:214-227 | without checking, every complete frame is delivered |
| `Bytes.PutI2` | lib/hi229/hi229_serial.c:18 | writing a 16-bit number low byte first is undone by reading it |
| `Hi229Payload.Raw.StoreAxes` | lib/hi229/hi229_serial.c:108-110 | sets three consecutive cells to the readings divided by their constants and keeps all others |
| `Hi229Payload.Raw.StoreQuat` | lib/hi229/hi229_serial.c:139-142 | sets the four quaternion cells to the four-byte words of the item, in order |
| `Hi229Payload.Raw.StoreNode` | lib/hi229/hi229_serial.c:155-173 | replaces all cells by the fields of the printed node, undoing the difference between wire order and structure order |
| `Hi229Payload.Raw.ParseAxes` | lib/hi229/hi229_serial.c:105-135 | the case for a three-axis item performs the printed item and nothing else; which cells that are and by what they are divided is stated by the four rows that follow `ParseOne` |
| `Hi229Payload.Raw.ParsePressure` | lib/hi229/hi229_serial.c:145-150 | the effect is that of the printed pressure item |
| `Hi229Payload.Raw.ParseImuSol` | lib/hi229/hi229_serial.c:152-175 | the effect is that of the printed node item |
| `Hi229Payload.Raw.StoreNodes` | lib/hi229/hi229_serial.c:182-203 | consumes exactly the announced nodes and stores each |
| `Hi229Payload.Raw.ParseGateway` | lib/hi229/hi229_serial.c:177-204 | the effect is that of the printed gateway item, whose nodes are consumed with it |
| `Hi229Payload.Raw.ParseItem` | lib/hi229/hi229_serial.c:98-208 | one turn of the loop at a printed chunk performs that chunk and advances exactly behind it; a byte that is no tag is skipped |
| `Hi229Payload.Raw.ParseData` | lib/hi229/hi229_serial.c:91-212 | parsing undoes printing: on the print of any complete items (at most eight, with at most one node each) and filler, the parser ends with code 1 and the offset exactly at the end, having performed the items in order on its old results |
| `Hi229Payload.Raw.ParseOne` | lib/hi229/hi229_serial.c:91-212 | for a payload of one complete item of any of the nine kinds every result is given in terms of the payload bytes, with tags, cells and divisors written out; all other cells keep their content |
| `Hi229Payload.AccItem` | lib/hi229/hi229_serial.c:105-112 | A0: cells 1 to 3 become the readings at bytes 1, 3 and 5 over 1000 |
| `Hi229Payload.GyrItem` | lib/hi229/hi229_serial.c:113-120 | B0: cells 4 to 6 become those readings over 10 |
| `Hi229Payload.MagItem` | lib/hi229/hi229_serial.c:121-128 | C0: cells 7 to 9 become those readings over 10 |
| `Hi229Payload.EulItem` | lib/hi229/hi229_serial.c:129-135 | D0: cells 10 to 12 become those readings over 100, 100 and 10, and the node count stays |
| `Hi229Payload.IdItem` | lib/hi229/hi229_serial.c:99-104 | 90: cell 0 becomes the byte |
| `Hi229Payload.QuatItem` | lib/hi229/hi229_serial.c:136-144 | D1: cells 13 to 16 become the four words |
| `Hi229Payload.PressureItem` | lib/hi229/hi229_serial.c:145-150 | F0: cell 17 becomes the word |
| `Hi229Payload.NodeItem` | lib/hi229/hi229_serial.c:152-175 | 91: identification, pressure and time stamp from bytes 1, 4 and 8, and cells 1 to 16 from the words behind byte 12 |
| `Hi229Payload.GatewayItem` | lib/hi229/hi229_serial.c:177-204 | 62: gateway number and node count from bytes 1 and 2, and the cells from the node behind byte 8 if there is one |
| `Hi229Payload.SameCells` | lib/hi229/hi229_serial.c:105-175 | a quantity sent as an item of its own goes to the cells that a node fills from the bytes of the same quantity, in the same order |
| `Hi229Payload.Raw.ParseFiller` | lib/hi229/hi229_serial.c:205-207 | a payload without any of the nine tags leaves every result alone and clears the list of codes |
| `Hi229Payload.Raw.Input` | lib/hi229/hi229_serial.c:214-261 | one byte through decoder and parser: the framing machine makes its step, and the results change exactly when a frame is accepted, by the effects of the items its payload prints |
| `Hi229Payload.Raw.Reset` | lib/hi229/hi229.c:331-335 | from any state every member of the structure is zero again, and the decoder hunts |
| `Hi229Device.Device.Feed` | lib/hi229/hi229.c:195-201 | one byte in the poll loop: on a delivered frame, and only then, the node is copied to the snapshot, the time is stamped and the ready bit is set |
| `Hi229Device.Device.Poll` | lib/hi229/hi229.c:191-201 | the loop over one read feeds its bytes in order |
| `Hi229Device.Device.PollTask` | lib/hi229/hi229.c:187-209 | any number of reads has the effect of their bytes one after the other, on decoder, results and snapshot |
| `Hi229Device.CellsAfter` | lib/hi229/hi229.c:195-201 | after any bytes the cells are those of performing all items of all delivered frames in order |
| `Hi229Device.StreamUpdatesReadings` | lib/hi229/hi229.c:187-209 | end to end: however a stream of frames of printed items between noise is split into reads, the cells end as all the items of all the frames leave them; the snapshot is a copy of them, the codes are those of the last frame and the stamp is the clock at its last byte |
| `Hi229Device.StreamLastWriterWins` | lib/hi229/hi229.c:187-209 | a cell ends with what the last item of the stream that sets it wrote |
| `Hi229Device.Device.PollStream` | lib/hi229/hi229.c:187-209 | a device that hunts and polls any split of a clean stream ends with the cells that all its items leave, and reports the last frame |
| `Hi229Device.PollNewDevice` | lib/hi229/hi229.c:187-209 | the same from power-on, for a new device |
| `Hi229Payload.CodesAreListed` | lib/hi229/hi229_serial.c:94-101 | performing a list of items lists their codes in order |
| `Hi229Payload.LastWriterWins` | lib/hi229/hi229_serial.c:97-209 | a cell holds what the last item that sets it wrote |
| `Hi229Payload.UntouchedCell` | lib/hi229/hi229_serial.c:97-209 | a cell that no item sets keeps what an earlier frame left there |
| `LinearSystem.SwapKeepsSolutions` | tests/ellip.c:97-104 | swapping rows keeps the solution set |
| `LinearSystem.AddKeepsSolutions` | tests/ellip.c:113-116 | adding a multiple of one row to another keeps the solution set |
| `LinearSystem.ScaleKeepsSolutions` | tests/ellip.c:107-110 | scaling a row by a non-zero factor keeps the solution set |
| `LinearSystem.EliminationSound` | tests/ellip.c:131-149 | for every size and every rule that decides the row swaps: if no zero pivot is met, the result is upper triangular with a non-zero diagonal and has exactly the solutions of the input |
| `LinearSystem.SortLeavesPivot` | tests/ellip.c:120-128 | the pivot that the sorting pass leaves depends on column k only, through the comparison as the macro expands |
| `LinearSystem.PivotIsLastNonZero` | tests/ellip.c:120-128 | the pivot is the last non-zero entry of the column and not the largest; a negative one that is not in the last row is lost, and the pivot is zero |
| `LinearSystem.ZeroPivotIff` | tests/ellip.c:137-138 | the pass over one column leaves a zero pivot exactly when the column is zero, or its last non-zero entry is negative and above the last row |
| `LinearSystem.AcceptedIff` | tests/ellip.c:131-149 | for every size and system: the elimination succeeds if and only if the system has exactly one solution and no pass drops a pivot |
| `LinearSystem.ZeroColumnIsSingular` | tests/ellip.c:137-138 | a zero column below a cleared part leaves a direction in which nothing changes, so the system does not have exactly one solution |
| `LinearSystem.LosesPivotScaled` | tests/ellip.c:76-81 | whether a pivot is dropped does not depend on the unit of the equations, in particular not on the averaging |
| `LinearSystem.NormalizeFacts` | tests/ellip.c:152-157 | dividing the rows by their diagonal gives a unit diagonal, keeps the triangle and the solution set |
| `LinearSystem.SubstitutionSolves` | tests/ellip.c:164-169 | back substitution on a triangular system with unit diagonal yields a solution |
| `LinearSystem.TriangularUnique` | tests/ellip.c:164-169 | such a system has at most one solution |
| `LinearSystem.StagesSolve` | tests/ellip.c:131-174 | for every size and swap rule: after a success of the elimination the three stages yield the one vector that satisfies every original equation |
| `LeastSquares.NormalRow` | tests/ellip.c:56-73 | how far a vector misses row r of the accumulated system is the sum of its misses weighted by feature r |
| `LeastSquares.SolutionIsOrthogonal` | tests/ellip.c:56-73 | the misses of a solution are orthogonal to every direction of change |
| `LeastSquares.ErrorExpansion` | tests/ellip.c:56-73 | moving from a solution by d raises the squared error by exactly the squared spread of d |
| `LeastSquares.OnlySolutionMinimises` | tests/ellip.c:56-73 | if the accumulated system has one solution, every other vector has a strictly larger squared error |
| `LeastSquares.StrictMinimumIsOnlySolution` | tests/ellip.c:56-73 | the converse: a strict minimum of the squared error is the only solution of the accumulated system |
| `Ellipsoid.OnlySolutionIsBestFit` | tests/ellip.c:179-201 | the same for the seven features of a calibration point: the solution is the strict minimiser of the sum of squared quadric values |
| `Ellipsoid.HasBestFitIff` | tests/ellip.c:56-73 | the accumulated system has exactly one solution if and only if the points have a best fit |
| `Ellipsoid.AcceptedPoints` | tests/ellip.c:179-191 | for all points: the averaged normal equations are accepted if and only if the points have a best fit and no pass drops a pivot |
| `Ellipsoid.PolesAreRejected` | tests/ellip.c:120-138 | the six poles of every sphere with its centre on the x axis away from the origin are rejected, although that sphere is their unique best fit and misses none of them |
| `Ellipsoid.EllipsoidIsQuadric` | tests/ellip.c:205-217 | the centre and semi-axes reported describe exactly the zero set of the fitted quadric: a point has level 1 if and only if the quadric vanishes there |
| `Ellipsoid.FiniteIff` | tests/ellip.c:205-217 | centre and semi-axes are finite numbers if and only if the coefficients of y^2 and z^2 are positive and the fitted quadric has a point at all |
| `Ellipsoid.PointIsQuadric` | tests/ellip.c:205-217 | when the first semi-axis is zero, the fitted quadric is exactly the one point reported as the centre |
| `Ellipsoid.RecoversEllipsoid` | tests/ellip.c:195-217 | exact recovery: when a best fit exists and all points lie on one axis-aligned ellipsoid, the centre and the semi-axes derived are its own |
| `Ellipsoid.Context.ResetMatrix` | tests/ellip.c:42-53 | the unknowns are zero and the matrix holds the normal equations of no points |
| `Ellipsoid.Context.AddCalData` | tests/ellip.c:56-73 | the matrix holds the normal equations of the points so far and the new one; the counter wraps at 2^32 |
| `Ellipsoid.Context.CalDataAverage` | tests/ellip.c:76-81 | every entry is divided by the counter |
| `Ellipsoid.Context.SwapRow1Row2` | tests/ellip.c:97-104 | the in-place loop swaps the two rows and keeps the rest |
| `Ellipsoid.Context.RowMultiK` | tests/ellip.c:107-110 | the in-place loop scales one row and keeps the rest |
| `Ellipsoid.Context.Row2AddRow1K` | tests/ellip.c:113-116 | the in-place loop adds a multiple of one row to another and keeps the rest |
| `Ellipsoid.Context.SortRows` | tests/ellip.c:120-128 | the loop is the sorting pass under the rule that the macro expands to |
| `Ellipsoid.Context.ClearColumn` | tests/ellip.c:140-143 | the loop clears the column below the pivot row by row |
| `Ellipsoid.Context.GaussElimination` | tests/ellip.c:131-149 | error 1 exactly when the elimination meets a zero pivot, and the matrix is then the one at that point |
| `Ellipsoid.Context.SimplifyRow` | tests/ellip.c:152-157 | the loop normalises all rows, each by the diagonal as it was |
| `Ellipsoid.Context.SolveRow` | tests/ellip.c:166-168 | one turn extends the substitution upwards by one unknown and keeps the later ones |
| `Ellipsoid.Context.SolveMatrix` | tests/ellip.c:164-169 | every unknown is what its row leaves once the later unknowns are known |
| `Ellipsoid.Context.SolveSystem` | tests/ellip.c:185-193 | success if and only if the system has exactly one solution and no pass drops a pivot, and then the result is the one solution of the system as it was on entry |
| `Ellipsoid.Context.FitCoefficients` | tests/ellip.c:179-201 | the fit reports success if and only if the points added since the reset have a unique strict least-squares minimum and no pass drops a pivot, and then the result is that minimum; otherwise the status is failed and the code 255 |
| `Ellipsoid.Context.FitEllipsoid` | tests/ellip.c:179-227 | success in exactly the same cases, and then the ellipsoid reported is the one derived from the minimiser, and a failure leaves the old one |
| `ZeroCount.SucceedsWithNaN` | tests/ellip.c:76-201 | with a counter of zero, in particular without any point, the fit reports success for every matrix of finite sums and every size, and every coefficient is NaN |
| `ZeroCount.EliminationLifts` | tests/ellip.c:131-149 | on finite entries the elimination with infinities and NaN is the one proved above, with the same verdict and the same matrix |
| `ZeroCount.NormalizeLifts` | tests/ellip.c:152-157 | the same for the normalisation |
| `ZeroCount.SubstitutionLifts` | tests/ellip.c:164-169 | the same for the back substitution |
| `RingBuf.Ring.Init` | lib/ring_buf/ring_buf.c:19-47 | the exact error for every combination of arguments and allocation results; a success stores the sizes and starts an empty log, and the first slot to be written lies inside the buffer exactly when there are two slots or more |
| `RingBuf.Ring.Reset` | lib/ring_buf/ring_buf.c:52-56 | the log is empty again; the bytes stay |
| `RingBuf.Ring.Push` | lib/ring_buf/ring_buf.c:75-81 | appends one entry to an unbounded log of which the flat buffer is a window; the slot counter equals the head modulo the size |
| `RingBuf.Ring.Peek` | lib/ring_buf/ring_buf.c:104-112 | the error case, the index settled on, the bytes of its slot also for index 0, and for every other index that they are the log entry |
| `RingBuf.PushKeepsWindow` | lib/ring_buf/ring_buf.c:77-79 | writing one slot keeps the other entries of the window intact, for every size and item width |
| `RingBuf.SlotsDiffer` | lib/ring_buf/ring_buf.c:77-78 | entries fewer than `size` apart never share a slot, entries `size` apart do |
| `RingBuf.SettlesOnEntry` | lib/ring_buf/ring_buf.c:106-109 | exactly when a peek settles on an entry of the log; inside the window it is the one asked for, outside it is the newest, and it is always newer than n - size |
| `RingConcurrent.UninterruptedPeek` | lib/ring_buf/ring_buf.c:106-109 | with no step of the producer in between, the interleaved tests of a peek settle exactly as the sequential ones |
| `RingConcurrent.StepInv` | lib/ring_buf/ring_buf.c:75-111 | every byte-level step of a push or a peek, in any interleaving, keeps the invariant on memory, head, slot and the bytes copied so far |
| `RingConcurrent.RunInv` | lib/ring_buf/ring_buf.c:75-111 | the invariant holds after every interleaving |
| `RingConcurrent.NoTornRead` | lib/ring_buf/ring_buf.c:75-111 | in every interleaving of any number of pushes and peeks without the mutex: if by the end of the copy the producer has not begun to overwrite the slot (in particular if head <= i + size - 1), the bytes copied are exactly entry i |
| `RingConcurrent.OnePushNeverTears` | lib/ring_buf/ring_buf.c:75-111 | one push in progress or completed between the window test and the end of the copy never tears a read, even of the oldest readable entry |
| `RingConcurrent.OverrunReadsNewerItem` | lib/ring_buf/ring_buf.c:75-111 | the condition cannot be dropped: once the producer has replaced a byte of the slot, the copy takes that byte from the newer item |
| `RingConcurrent.UninterruptedPush` | lib/ring_buf/ring_buf.c:75-81 | from every state of the invariant a push alone can run to its end, and then its item is the newest entry |
| `RingConcurrent.PeekRuns` | lib/ring_buf/ring_buf.c:104-112 | a peek alone can run to its end with the entry asked for, or the newest one when that has left the window |
| `Session.Streaming.constructor` | components/apps/monitor.c:63-65 | a session starts on a ring that has just been reset, with sequence number 0 and cursor 1 |
| `Session.Streaming.MonitorTurn` | components/apps/monitor.c:83-94 | one turn of the producer loop: the reading gets the number of pushes so far modulo 2^32 and is appended to the ring |
| `Session.Streaming.ClientTurn` | components/apps/network.c:102-134 | one turn of the consumer loop is one poll of the session: waits at the head, otherwise sends a packet of the entry peeked and advances by one; a failed send ends the session |
| `Datagram.RecordLayout` | components/imu/imu.h:9-33 | where the record holds each of the thirteen fields, the four bytes of padding among them |
| `Datagram.BytesInverse` | components/apps/monitor.c:91-94 | reading the record back from the ring undoes writing it, and the other way round |
| `Datagram.TagPacketReports` | components/apps/network.c:54-67 | a packet is the one made of the bytes of a reading if and only if each of its fields is the field of that name of the reading, and its delay is the age of the reading in microseconds modulo 2^32 |
| `Datagram.DelayIsTrueIff` | components/apps/network.c:66 | the delay sent is the true age if and only if that fits a signed 32-bit number |
| `Datagram.WireOfRecord` | components/apps/network.c:22-32 | byte for byte: the 80 bytes sent are bytes 4 to 39, 52 to 67, 72 to 75 and 80 to 99 of the record, and the delay |
| `Session.NextInv` | components/apps/network.c:102-134 | every event keeps numbering, authenticity and age of the packets; order survives every poll whose lag is below the ring size |
| `Session.SessionIsLossless` | components/apps/network.c:97-123 | with pushes and peeks in one step each: if the lag is below the ring size at every poll, packet k has, field by field, the content of the k-th reading taken from the sensor, and the number k modulo 2^32 |
| `Session.SessionSendsPushedReadings` | components/apps/network.c:97-123 | with pushes and peeks in one step each, whatever the lag: every packet has, field by field, the content of a reading taken from the sensor and its number modulo 2^32, none older than the cursor at that time |
| `Session.PollSends` | components/apps/network.c:110-123 | every poll of a client that has something to read sends exactly one packet: of the reading at its cursor or, when it lags by the ring size or more, of the newest one |
| `Session.EverythingArrives` | components/apps/network.c:102-123 | as many polls as the client lags behind, and every reading taken from the sensor has been sent, once each, in order |
| `Session.InOrderIff` | components/apps/network.c:97-123 | the k-th packet carries the k-th reading for all k if and only if no poll sends while the client lags by the ring size or more, and then nothing is lost or repeated |
| `SessionConcurrent.StepInv` | components/apps/network.c:102-134 | every byte-level step of both loops on the unlocked ring keeps the ring invariant, the numbering and the place of the cursor |
| `SessionConcurrent.SendsPushedReadings` | components/apps/network.c:97-123 | in every byte-level interleaving in which no copy is overrun, every packet consists of the stated byte ranges of a record that was pushed, with its number and its age, none older than the cursor at that time |
| `SessionConcurrent.SessionIsLossless` | components/apps/network.c:97-123 | in every byte-level interleaving in which the lag is below the ring size whenever a copy ends, packet k consists of those byte ranges of the k-th record pushed, with consecutive numbers modulo 2^32 |
| `SessionConcurrent.UninterruptedPoll` | components/apps/network.c:102-123 | from every state of the invariant a client with something to read can run to the end of its turn alone, and has then sent one packet, of the record at its cursor or, when it lags by the ring size or more, of the newest one |
| `Bno08x.StepInv` | lib/bno08x/bno08x_driver.c:2790-2809 | every step of service routine, SPI task and user thread keeps the invariant that a blocked SPI task with a report on has the interrupt on |
| `Bno08x.ReportingNeverStalls` | lib/bno08x/bno08x_driver.c:544-582 | in every interleaving, while a report is enabled the SPI task is never blocked with the interrupt off and nothing pending, except inside a call that enables a report when none was on |
| `Bno08x.InternalRunsEnd` | lib/bno08x/bno08x_driver.c:2790-2809 | service routine and SPI task run out of steps without a new hint, and change no report |
| `Bno08x.ReportingResumes` | lib/bno08x/bno08x_driver.c:2790-2809 | from every such state at most twelve steps remain before the next hint, and when none is left the interrupt is on |
| `Bno08x.HintsAreEnabled` | lib/bno08x/bno08x_driver.c:2849-2858 | in every run from power-on the hints served never outnumber the steps that switch the interrupt on |
| `Bno08x.OneHintPerEnable` | lib/bno08x/bno08x_driver.c:2855 | after a hint the interrupt is off and no further hint fires until such a step |
| `Bno08x.MaskedUntilServed` | lib/bno08x/bno08x_driver.c:2790-2808 | a hint that reaches the blocked SPI task keeps the interrupt off until the transaction is over, unless the user thread switches it on |
| `Bno08x.OffAfterLastReportIff` | lib/bno08x/bno08x_driver.c:576-580 | disabling the last report leaves the interrupt off until the next call, except if and only if the SPI task had looked at the report bits before they were cleared |
| `Bno08x.LastDisableMasks` | lib/bno08x/bno08x_driver.c:576-580 | once the last report bit is cleared, and unless the SPI task was about to switch the interrupt on, the call returns with the interrupt off |
| `Bno08x.EnablesOnlyAlone` | lib/bno08x/bno08x_driver.c:163-165 | in every run the user thread switches the interrupt on only while no report is on, or for the only one |
| `Bno08x.WaitListens` | lib/bno08x/bno08x_driver.c:163-168 | a wait that finds no report on keeps the interrupt on until a hint fires or the wait ends |
| `Bno08x.CallOutcome` | lib/bno08x/bno08x_driver.c:265-582 | what every call has done when it returns, whatever the other tasks did: which reports are on, depending on the first wait, and how many waits it made (enable 4, disable 1, soft reset 4, hard reset 2 or 1) |
| `Bno08x.PacketsInOrder` | lib/bno08x/bno08x_driver.c:461-480 | in every run packets go out in the order they were made, none twice |
| `Bno08x.PacketIsLostIff` | lib/bno08x/bno08x_driver.c:479 | a packet to send is lost, whatever happens later, if and only if the one before it has not been taken from the queue |
| `Bno08x.OneWaitPerTransfer` | lib/bno08x/bno08x_driver.c:191-230 | every packet sent or received ends at most one wait, and no wait succeeds without one of its kind |
| `Bno08x.WaitTakesItsBit` | lib/bno08x/bno08x_driver.c:168-230 | which event bit each kind of wait needs and clears; the other one stays |
| `Blink.SymbolsAreBalanced` | components/blink/blink.c:185-190 | every two-tick symbol is a permutation of the levels 255 and 64, for every bit string |
| `Blink.SyncIsUnique` | components/blink/blink.c:180-190 | in the endlessly repeated signal three high ticks and a low one occur at the start of a period and nowhere else, for every bit string of any length |
| `Blink.ReceiverRecoversBits` | components/blink/blink.c:180-190 | a receiver that starts at any tick recovers all the bits from two periods |
| `Blink.FillU8Hamming` | components/blink/blink.c:143-157 | the cells 2, 4, 5, 6, 8, 9, 10 and 11 are the binary digits of the number, most significant first; each parity cell is the parity of its cells and of its own old content |
| `Blink.SyndromeIsOldContent` | components/blink/blink.c:153-156 | the four checks of a Hamming code come out as what the uninitialised parity cells held |
| `Blink.ErrorsAreRepairedIff` | components/blink/blink.c:143-157 | a receiver that corrects one error repairs every single one if and only if all four parity cells held even values before |
| `Blink.CorrectionIsHarmlessIff` | components/blink/blink.c:143-157 | without an error on the way such a receiver reads the number correctly if and only if the old content names no data cell |
| `Blink.BitsOfByte` | components/blink/blink.c:34-36 | the bits that the array accessor yields are the binary digits of the byte |
| `Blink.CarriedNumber` | components/blink/blink.c:143-151 | a word that carries a sequence number gives it back, whatever its parity cells hold |
| `Blink.Transmitter.WriteSymbol` | components/blink/blink.c:186-189 | copying from the two ticks before, swapped for a one bit, writes the next symbol of the signal |
| `Blink.Transmitter.PreparePattern` | components/blink/blink.c:174-190 | the buffer holds one period of the signal of the word: 255, 255, 255, 64, and then for each cell the two ticks before, swapped for a one |
| `Blink.Transmitter.PrepareSequence` | components/blink/blink.c:183-190 | the pattern shown is that of a word carrying the sequence number, although the word buffer starts uninitialised |
| `Blink.Transmitter.Timeout` | components/blink/blink.c:163-169 | the callback shows the next place of the pattern and wraps, also when the index is past a shorter pattern |
| `Blink.CallbacksAreCyclic` | components/blink/blink.c:163-169 | the k-th callback shows place (start + k) modulo the pattern length |
| `Blink.SequenceNumberIsReceived` | components/blink/blink.c:163-190 | end to end: from any callback on, the duties set over two periods are 3984 or 1000 and give back the sequence number |
| `Button.Isr.Edge` | components/sys/button.c:44-69 | presses and releases alternate; a release queues the kind that the tick difference modulo 2^32 decides |
| `Button.Isr.NextEdge` | components/sys/button.c:44-69 | on a trace in true time the 32-bit tick decides by the low 32 bits of the duration |
| `Button.Isr.Trace` | components/sys/button.c:44-69 | a whole trace queues one event for each press, of the kind that the low 32 bits of its duration decide, dated by its release |
| `Button.WrapCancels` | components/sys/button.c:59 | the 32-bit difference of two ticks is their true distance modulo 2^32 |
| `Button.KindIsTrueIff` | components/sys/button.c:59-63 | the kind is the true one if and only if the press is short or the low 32 bits of its duration are long, too; below 2^32 ticks it always is |
| `Button.TwoWindowsFit` | include/settings.h:70-71 | two double-click windows never exceed the shortest long press, for every tick period |
| `Button.Daemon` | components/sys/button.c:77-103 | the loop performs the actions of the specification in order, and ends with the mode that they leave; the rows from `TogglesExactly` on say which actions and which mode that are |
| `Button.NeverSwallowed` | components/sys/button.c:77-103 | for events of which long ones come late enough, no long press is the second half of a double click, and the first one is acted on |
| `Button.LongPressIsActedOn` | components/sys/button.c:44-103 | for every edge trace and dequeue latency within the double-click window, a long press before deep sleep is acted on and never swallowed |
| `Button.TogglesExactly` | components/sys/button.c:81-95 | up to the first long press: click i switches the mode if and only if it is taken first and no event i + 1 has a time of at most time(i) + latency(i) + window; with a click there it is a double click and nothing else |
| `Button.ActsExactly` | components/sys/button.c:81-101 | up to the first long press exactly one action is due to every event taken first, and none to the others |
| `Button.ModeIsParity` | components/sys/button.c:91-93 | the mode ends changed if and only if the number of toggles is odd; double clicks leave it as it was |
| `Button.Milliseconds` | include/settings.h:70-71 | a press is long exactly when it lasts more than 1000 ms, and the window lasts as much of 500 ms as fits whole ticks |
| `Button.TwoClicks` | components/sys/button.c:44-95 | from the edges: two presses of at most 1000 ms each, taken off the queue at once, are one double click and nothing else when their releases are at most 500 ms apart, and two switches of the mode otherwise |
| `Button.OnePress` | components/sys/button.c:44-101 | from the edges: one press switches the mode if it lasts at most 1000 ms and sends to sleep otherwise, whatever the latency |
| `Power.Manager.Init` | components/sys/power_mgmt.c:80-130 | what a boot keeps and sets, for a first boot, a wake-up and an unexpected state; the sleep inhibition is not reset |
| `Power.Manager.ArmPowerSaveTimer` | components/sys/power_mgmt.c:35-50 | whether or not it existed, the timer is due 300 s from now |
| `Power.Manager.DisarmPowerSaveTimer` | components/sys/power_mgmt.c:56-63 | no timer is left and nothing else changes |
| `Power.Manager.ResetPowerSaveTimer` | components/sys/power_mgmt.c:69-74 | an existing timer is due 300 s from now; none is created |
| `Power.Manager.OnEnterStandby` | components/sys/power_mgmt.c:169-228 | BLE ends up on exactly outside the low-energy mode, and the timer exists exactly outside the performance mode |
| `Power.Manager.OnEnterActive` | components/sys/power_mgmt.c:234-245 | BLE ends up off and the timer is kept |
| `Power.Manager.HandleModeTransition` | components/sys/power_mgmt.c:410-433 | a requested mode takes effect together with the timer and BLE changes it brings |
| `Power.Manager.Handler` | components/sys/power_mgmt.c:401-472 | the whole new state for every event |
| `Power.Manager.Boot` | main/app_main.c:29-38 | the outcome of every boot: running in standby with BLE and timer as the mode asks, asleep again after a wake-up by the timer, or a restart |
| `Power.RunConsistent` | components/sys/power_mgmt.c:401-472 | every event keeps BLE and the timer consistent with state and mode |
| `Power.BleAndTimerFollowMode` | components/sys/power_mgmt.c:401-472 | after any boot and any events, outside deep sleep: BLE is on only in standby and never in the low-energy mode, and the save timer exists exactly outside the performance mode |
| `Power.BootedState` | components/sys/power_mgmt.c:169-228 | a device that has booted is in standby, advertises if and only if its mode is not low energy, and has a timer due in 300 s if and only if it is not performance |
| `Power.ModeChangeState` | components/sys/power_mgmt.c:453-462 | what a change between recording and standby leaves; in standby BLE is on if and only if the mode is not low energy |
| `Power.PowerEventState` | components/sys/power_mgmt.c:410-444 | a power event puts the requested mode into force; a busy device, or one that changes its mode, gets 300 s more, and the timer of an idle one runs on |
| `Power.IdleDeviceSleeps` | components/sys/power_mgmt.c:410-462 | a device that goes to standby and is left alone advertises if and only if its mode is not low energy, and can fall asleep from exactly 300 s after that on, however many power events it handles meanwhile |
| `Power.NoExpiryAfterTick` | components/sys/power_mgmt.c:436-444 | the deadline stays ahead of the next tick through every timed run of a busy device |
| `Power.BusyDeviceStaysAwake` | components/apps/system_loop.c:37-42 | once a periodic event has been handled in ACTIVE, or in STANDBY with the sleep inhibition, the 300 s timer does not expire while that lasts, if every 20 s event is handled less than 280 s after it is due |
| `Power.BoundIsExact` | include/settings.h:63-64 | with one millisecond more of delay the timer can win |
| `Power.BootsBusyIff` | components/sys/power_mgmt.c:102-128 | for every mode and time, a device that has just booted is busy if and only if RTC memory still holds the sleep inhibition |
| `Power.StandbyReleasedIff` | components/sys/power_mgmt.c:453-462 | in standby exactly four events end it: deep sleep by timer or button, switching the inhibition off, and a change to the inactive mode |
| `Power.BootedBusyStaysAwake` | components/sys/power_mgmt.c:436-444 | a device that boots with the inhibition set stays busy and its save timer never expires, in every run on schedule without a mode change and without switching the inhibition off |
| `Power.WakesBusyAfterActive` | components/sys/power_mgmt.c:102-112 | after any boot and any run in which nobody switches it off, deep sleep entered from ACTIVE leaves the inhibition set, so the next boot is busy |
| `Power.WakesBusyAfterStandbyIff` | components/sys/power_mgmt.c:102-112 | deep sleep entered from STANDBY makes the next boot busy if and only if the inhibition was set there |
| `UrlDecode.DecodeFrom` | components/rest_controller/rest_controller_handlers.c:30-55 | for every memory content behind the string: what is written never grows beyond the text decoded |
| `UrlDecode.UrlDecodeCopyN` | components/rest_controller/rest_controller_handlers.c:30-55 | for every text and every memory content behind it, writes the decoded bytes and one zero behind them, and no other byte of the destination |
| `UrlDecode.BeyondDoesNotMatter` | components/rest_controller/rest_controller_handlers.c:36-55 | bytes behind the terminating zero never change what is written for a text inside the string |
| `UrlDecode.OverreadsIff` | components/rest_controller/rest_controller_handlers.c:36-46 | the decoder reads past the terminating zero if and only if the string ends, behind complete escapes and plain bytes, in a % with fewer than two characters, among the bytes to decode |
| `UrlDecode.CutEscapeOverreads` | components/rest_controller/rest_controller_handlers.c:64-93 | for the URI /v1?id=% and the key id the request is accepted with an empty value, and the decoder reads past the end of the URI |
| `UrlDecode.PercentEncode` | components/rest_controller/rest_controller_handlers.c:40-46 | the encoder of RFC 3986, section 2.1, is undone by the values of its tokens, so every value has an encoding |
| `UrlDecode.DecodeEncoding` | components/rest_controller/rest_controller_handlers.c:30-55 | decoding any mix of plain bytes, plus signs and escapes, between any other text, gives back the value and never reads past the string |
| `UrlDecode.EscapeIsByte` | components/rest_controller/rest_controller_handlers.c:40-45 | an escape of two hexadecimal digits of either case decodes to the byte they spell |
| `UrlDecode.OtherBytes` | components/rest_controller/rest_controller_handlers.c:46-52 | a plus sign decodes to a blank, every other byte but the percent sign to itself |
| `UrlDecode.MalformedEscapes` | components/rest_controller/rest_controller_handlers.c:40-45 | what five escapes without two digits decode to: %g1, %4g, %+5, % 5 and %-5 |
| `UrlDecode.Find` | components/rest_controller/rest_controller_handlers.c:69-72 | the first occurrence, and none when there is none |
| `UrlDecode.FindChar` | components/rest_controller/rest_controller_handlers.c:74-79 | the first such byte from a position on, or the end |
| `UrlDecode.ParseUrlKvPair` | components/rest_controller/rest_controller_handlers.c:64-93 | for every buffer into which the encoded value and a zero fit: the exact error for every URI and key, and on success the decoded text behind the first equals sign, independent of what lies behind the string; an error leaves the buffer alone |
| `UrlDecode.RangeIff` | components/rest_controller/rest_controller_handlers.c:69-87 | not found if and only if the key occurs nowhere; when accepted, the value has at most 128 bytes, runs to the next ampersand or the end, and follows the first equals sign behind the first occurrence of the key, with no ampersand between |
| `UrlDecode.FirstPairIsAccepted` | components/rest_controller/rest_controller_handlers.c:69-87 | conversely every such pair with a value of at most 128 bytes is accepted and that value is located, and one with a longer value is an invalid argument |
| `UrlDecode.FitsInIff` | components/rest_controller/rest_controller_handlers.c:84-90 | a buffer of n bytes is large enough if and only if the encoded text of the parameter is shorter than n |
| `UrlDecode.AlwaysFits` | components/rest_controller/rest_controller_handlers.c:85-87 | a buffer of 129 bytes is large enough for every URI and key |
| `UrlDecode.LettersFitIff` | components/rest_controller/rest_controller_handlers.c:262-299 | for the path of a variable and a value of n letters the parser accepts every n up to 128, and a buffer is large enough if and only if it is longer than n |
| `UrlDecode.VariableBufferOverrun` | components/rest_controller/rest_controller_handlers.c:277-299 | a value of 65 letters is accepted and overruns the 65 bytes of the handler for variables, one of 64 letters does not |
| `UrlDecode.RangeOf` | components/rest_controller/rest_controller_handlers.c:69-87 | the range found is the parameter's own if and only if neither '=' nor '&' separates it from the first occurrence of the key |
| `UrlDecode.ParseInvertsEncoding` | components/rest_controller/rest_controller_handlers.c:64-93 | round trip: for every value without zero bytes and every encoding of at most 128 bytes, the parameter is located if and only if that condition holds, and then its decoded value is the original |
| `UrlDecode.ParseInvertsOwnKey` | components/rest_controller/rest_controller_handlers.c:64-93 | in particular when the first occurrence of the key in the URI is the parameter itself |
| `UrlDecode.OtherValueReturned` | components/rest_controller/rest_controller_handlers.c:69-90 | for the URI /v1?xid=5&id=7 and the key id the value returned is 5 |

## Left out

- Floating-point rounding, infinities and NaN in the calibration; single precision of `float` intermediates.
- Ellipsoid.Context.FitCoefficients: asks for a counter that is not zero, since it works over the reals; `ZeroCount` states on values, with infinities and NaN, what the stages of the fit do with a counter of zero.
- Ellipsoid.Context.FitEllipsoid: asks for a counter that is not zero, for the same reason, and covers the results when both quadratic coefficients are positive and the radicand is not negative; the other cases, in which the source stores NaN, infinities or, for both coefficients of the wrong sign, no real axes, are one value.
- The printing of matrices in `tests/ellip.c`.
- Ellipsoid.Context.CalDataAverage: asks for a counter that is not zero, for the same reason.
- Hi229Payload.Raw.ParseData: covers payloads of complete items, at most eight of them, with at most one node per gateway item; beyond that the source writes past its arrays or reads past the payload.
- Hi229Payload.Raw.ParseItem: the same for one item, which is complete and finds room in the list.
- Hi229Payload.Raw.ParseGateway: the same for a gateway item, with at most one node.
- Hi229Payload.Raw.StoreNodes: the same for its loop; `imu` has one element.
- Hi229Payload.Raw.Reset: is one step between two bytes; the source also calls it from another FreeRTOS task while the poll loop may be inside the decoder, and flushes the UART.
- Hi229Payload.Raw.Input: asks that an accepted payload is such a print; so do `Device.Feed`, `Device.Poll` and `Device.PollTask`.
- Hi229Device.Device.Feed: asks the same of the frame that the byte completes.
- Hi229Device.Device.Poll: asks the same of the frames that the read completes.
- Hi229Device.Device.PollTask: asks the same of the frames that the reads complete.
- Hi229Stream.Decoder.DecodeCh: is the checksum alone; `Raw.Input` adds the call of the parser.
- UART driver, the other functions of `lib/hi229`, and readers of the snapshot in other FreeRTOS tasks.
- Ring buffer: variants with the mutex, freeing, null pointer arguments, overflow of `size * item_width`; reads and updates of the 64-bit `head` are taken as atomic.
- RingConcurrent, SessionConcurrent: state machines on values; resets during a peek, a second consumer and compiler or memory-system reordering are not modelled, except that the bytes of one copy may go in any order.
- Session.SessionIsLossless: takes each push and each peek as one step; `SessionConcurrent.SessionIsLossless` is the same for bytes.
- Session.SessionSendsPushedReadings: as the line above; `SessionConcurrent.SendsPushedReadings` is the same for bytes.
- Datagram.TagPacketReports: takes the difference of clock and time stamp as an unbounded integer before it is cut to 32 bits; an overflow of 64 bits would not change those.
- Sessions across a stop and restart in which producer and consumer restart at different times; failed reads of the sensor, which change nothing; the network wrappers.
- Bno08x: a state machine on values with one user thread; SPI contents, wake and chip-select levels, callbacks, the wait for the reset reason and the second wait inside `wait_for_data`, which touches neither the interrupt nor the report bits. Timeouts are allowed at any time.
- Blink: the other patterns, LED status bookkeeping, starting and stopping the timer, and the 8-bit length of the pattern for more than 125 bits.
- Button: overflow of the event queue, contact bounce, and a first edge that is a release. An event exactly at the end of the double-click window counts as inside.
- Power: light sleep and `app_power_save`, the sensor reading taken at a wake-up by the timer (it does not affect the decision), OTA itself, pins, Wi-Fi, LED, battery and IMU peripherals, failure to create the timer. Timer expiry and a long press are one step into deep sleep.
- Power.BusyDeviceStaysAwake: time is in milliseconds and the periodic timer is exact; the delay between due time and handling is arbitrary below the bound.
- UrlDecode: `strtol` in the C locale; URIs that contain zero bytes are not C strings and are cut at the first one only where they are decoded.
- HTTP and JSON handlers, BLE, NVS, battery, SNTP, discovery, variable lookup and clamping: plumbing, or easy members only.
