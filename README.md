# arduinoio serial protocol, modelled in Dafny

arduinoio links a host computer (a Python `SerialInterface`) to Arduino
firmware (C++ modules run from `ArduinoIO.HandleLoopMessages`) over a
serial line. Both ends exchange the same frame:

    address length (1) | command length | timeout | address | command bytes | second sum | first sum

The two sums are a Fletcher-style checksum over everything before them. Each
step reduces both sums mod 256.

This project models the following, and proves their properties:

- **HostMessage.** The host's incremental frame parser, the Python `Message`. It checks that the address length is 1, can resynchronise to an expected length, and has a `no_checksums` fast path.
- **SerialControl.** The host's `SerialInterface`:
  - `MessageToBytes` frames a command;
  - `Fletcher16Checksum` computes the sums;
  - `GetSlaveState` polls for the `R`/`E` markers;
  - `Write` runs the retry loop;
  - `Read` assembles a frame one byte per call;
  - `ReconnectIfNeeded` scans for devices, and `Clear` resets the parser.
- **FirmwareMessage.** The firmware's parser, `Message` of `lib/message.h`. It stores the command in a 50-byte buffer.
- **TimedCallbacks.** The firmware's 32-bit millisecond one-shot timer, `TimedCallback`.
- **SerialModule.** The firmware module that receives frames and rebroadcasts accepted ones, `SerialRXModule`.
- **BidirSerialModule.** The one-byte-per-tick handshake module, `BidirSerialRXModule`.
- **ArduinoLoop.** The firmware dispatch loop, `ArduinoIO`.

The support modules are:

- **Bytes.** Bytes, 32-bit words, the bitwise OR used to build addresses, and the checksum.
- **FrameFormat.** The frame the host encodes.

Most components follow the same pattern:

- a pure function gives the behaviour one call has on the component's fields (`Step`, `Pump`, `Ticked`, `Accept`, `ReadStep`, `Attempts`…);
- a `class` with the source's fields has methods proved to perform exactly that function;
- lemmas about the function state what the protocol promises:
  - an encoded frame is parsed back (`RoundTrip`);
  - a bad checksum never completes;
  - an error is sticky;
  - retries are bounded;
  - every module is ticked once per loop pass;
  - the timer is wrap-safe and fires at most once.

Serial ports are modelled as sequences:

- `rx`/`input` are the bytes (or empty reads) the port will deliver;
- `tx`/`written` are the bytes written so far.

Clocks (`time.time()`, `millis()`) and the `/dev/` listing are parameters.

## Model

| member | source | states |
|---|---|---|
| Bytes.AddressByte | serial_control.py:56-59 | OR-ing byte `b` shifted by `8*index` into an address below `2^(8*index)` adds it, and the result stays below `2^(8*(index+1))` |
| Bytes.OrShifted | lib/message.h:56-59 | OR into a value with clear high bits is addition |
| Bytes.AccumulateAppend | serial_control.py:151-153 | folding the checksum over `xs + ys` is folding over `xs` and then over `ys` |
| Bytes.ChecksumSnoc | serial_control.py:151-153 | the checksum of `data + [b]` is one more step on the checksum of `data` |
| Bytes.SumUpdate | serial_control.py:148-154 | replacing one byte changes the plain byte sum by the difference of the two bytes |
| Bytes.ChangedByteChangesChecksum | serial_control.py:148-154 | replacing any one byte by a different byte changes the first sum |
| Bytes.ChecksumClosedForm | serial_control.py:148-154 | first sum = (sum of the bytes) mod 256; second sum = (sum of all prefix sums) mod 256 |
| FrameFormat.Frame | serial_control.py:132-146 | frame layout: `1`, the command length + 1, the timeout, the address, the command, `0`, then the second and first sums over the preceding bytes |
| FrameFormat.FrameParts | serial_control.py:132-146 | the frame is the header, the command plus NUL, then the checksum of the body, second sum first |
| HostMessage.Fresh | serial_control.py:21-37 | `Message(expected_length)`: no header read, address and command empty, index and sums zero, no error, the given expected length |
| HostMessage.Step | serial_control.py:39-82 | one `AddByte`: the header bytes in turn, then address bytes, command bytes, the second and the first checksum byte, and an error for any later byte; every byte is folded into the sums except the two checksum bytes and, in `no_checksums` mode, the completing command byte |
| HostMessage.TakeAddressLength | serial_control.py:40-44 | the address-length byte is stored, and anything but 1 sets the error |
| HostMessage.TakeCommandLength | serial_control.py:45-52 | the command-length byte is stored; with an expected length that it contradicts, the error is set and the lengths are forced to 1 and expected - 1 |
| HostMessage.TakeCommandByte | serial_control.py:60-64 | a command byte is appended; in `no_checksums` mode the last one returns true without being folded |
| HostMessage.FeedAppend | serial_control.py:39-82 | feeding `xs + ys` byte by byte is feeding `xs` then `ys`; the completion flags concatenate |
| HostMessage.FeedHeader | serial_control.py:40-55 | a well-formed header with one address byte leaves the parser past the address, with no completion |
| HostMessage.FeedPayload | serial_control.py:60-62 | command bytes are appended in order and folded into the sums, with no completion before the last one |
| HostMessage.FeedBody | serial_control.py:39-62 | the body of a frame leaves the command, address, timeout and running checksum of the body, with no completion |
| HostMessage.FeedChecksums | serial_control.py:65-76 | the two checksum bytes: error exactly when either differs from the running sums (or an earlier error); completes exactly when no error |
| HostMessage.FeedFrame | serial_control.py:39-82 | for any pair of trailing sums: only the last byte can complete, it completes exactly when both sums match, and the fields are decoded |
| HostMessage.RoundTrip | serial_control.py:39-82 | parsing `MessageToBytes(a, c, t)` completes on the last byte and on no earlier one, yielding address `a`, command `c + [0]`, timeout `t`, no error |
| HostMessage.BadChecksumRejected | serial_control.py:65-76 | a frame with a wrong sum never completes and ends in error |
| HostMessage.CorruptedFrameRejected | serial_control.py:65-81 | checksum sensitivity: an encoded frame with any one byte from index 2 on replaced by a different byte never completes and ends in error |
| HostMessage.MismatchRejected | serial_control.py:65-81 | a header `[1, n, t, a]`, any `n` bytes and trailing bytes that are not their sums: nothing completes and the error is set |
| HostMessage.FeedHeaderAndPayload | serial_control.py:39-64 | a header and as many bytes as it announces: nothing completes, no error, and the sums are the checksum of what was fed |
| HostMessage.StepKeepsError | serial_control.py:39-82 | once set, the error flag stays set |
| HostMessage.CompletesOnlyOnGoodChecksum | serial_control.py:60-76 | with checksums, `AddByte` returns true iff it is the first-sum byte, the byte matches and there was no error |
| HostMessage.NoChecksumsCompletion | serial_control.py:60-76 | in `no_checksums` mode, `AddByte` returns true iff it is the last command byte, or it is a matching first-sum byte with no error |
| HostMessage.ErrorNeverCompletes | serial_control.py:72-76 | after an error (with checksums) no later byte completes and the error stays |
| HostMessage.AddressLengthChecked | serial_control.py:40-44 | an address length other than 1 sets the error and no frame completes afterwards |
| HostMessage.ExpectedLengthResync | serial_control.py:45-52 | a length that disagrees with the expected length sets the error and resynchronises to address length 1 and command length expected - 1 |
| HostMessage.ByteAfterEndIsError | serial_control.py:77-79 | a byte past the end of the frame sets the error and does not complete |
| HostMessage.NoChecksumsFastPath | serial_control.py:60-64 | without checksums a header plus command completes exactly on the last command byte, with the fields decoded |
| HostMessage.FastPathState | serial_control.py:60-64 | the parser state after the fast path holds the command, address and timeout |
| HostMessage.FastPathOutputs | serial_control.py:60-64 | on the fast path only the last command byte returns true |
| HostMessage.QuietHeaderThenCommand | serial_control.py:60-64 | any quiet four-byte header followed by a command returns true exactly on the last command byte |
| HostMessage.FastPathCommand | serial_control.py:60-64 | from just past the address, a command of the declared length is appended and completes on its last byte only |
| HostMessage.LastCommandByte | serial_control.py:60-64 | in `no_checksums` mode the last command byte completes and is appended |
| HostMessage.AddressLittleEndian | serial_control.py:56-59 | address bytes arrive least significant first: each adds `b * 2^(8*index)` |
| HostMessage.Message.constructor | serial_control.py:21-37 | a new `Message(expected_length)` is the fresh parser |
| HostMessage.Message.AddByte | serial_control.py:39-82 | performs one parser step, returning its completion flag |
| HostMessage.Message.TakeHeaderByte | serial_control.py:40-59 | the header and address branches of `AddByte` |
| HostMessage.Message.Error | serial_control.py:84-85 | returns the error flag |
| SerialControl.Marked | serial_control.py:193-198 | one read of `GetSlaveState`: `R` sets READY, `E` sets ERROR, anything else or an empty read keeps the state |
| SerialControl.PollFrom | serial_control.py:189-200 | the `GetSlaveState` loop from a given state: reads until a marker has been seen and a read comes back empty; a returned state is never UNKNOWN and uses at most the reads available |
| SerialControl.Poll | serial_control.py:189-200 | a poll that returns gives READY or ERROR, never UNKNOWN, after at least one and at most all reads |
| SerialControl.PollFromMeaning | serial_control.py:189-200 | the poll never returns iff no marker ever arrives; otherwise it returns the last marker, and it returns at the first empty read after a marker or at the end of input |
| SerialControl.MarkedAllStays | serial_control.py:192-198 | once a marker was seen the state is never UNKNOWN again |
| SerialControl.PollNeverUnknown | serial_control.py:189-200 | `GetSlaveState` returns iff some marker arrives, and never returns UNKNOWN |
| SerialControl.MarkerPoll | serial_control.py:189-200 | a marker followed by an empty read is the state returned after two reads |
| SerialControl.WaitReady | serial_control.py:162-163 | the READY wait ends within the reads available |
| SerialControl.PollStep | serial_control.py:162-163 | one poll of the READY wait: no return means the wait is stuck; READY ends it after exactly the reads used; ERROR continues it |
| SerialControl.Attempt | serial_control.py:161-185 | one retry pass consumes what it read, sends at most one frame, never fails by itself, and a retry has read something |
| SerialControl.AttemptSteps | serial_control.py:162-185 | a pass is READY wait, one frame sent, then one ack poll: READY acknowledges, ERROR retries, no marker stalls |
| SerialControl.Attempts | serial_control.py:161-187 | the retry loop consumes at most its input and sends at most one frame per remaining retry |
| SerialControl.ResumesAfterRejection | serial_control.py:173-185 | a rejected pass moves the loop one retry on, one frame more sent |
| SerialControl.ResumesStops | serial_control.py:161-187 | at 1000 rejected retries the loop fails; a pass that returns decides the loop's outcome |
| SerialControl.AttemptsBounded | serial_control.py:161-187 | `Write` fails only after exactly 1000 frames sent; an acknowledged write sent at least one |
| SerialControl.AttemptRejected | serial_control.py:173-185 | a READY, frame, ERROR exchange costs four reads and one frame, then the loop goes on with the next retry |
| SerialControl.RejectedThroughout | serial_control.py:161-187 | when the peer rejects every one of the 1000 retries, `Write` fails having read everything and sent each frame once per retry |
| SerialControl.ErrorThenReady | serial_control.py:161-187 | READY, ERROR, READY, READY: acknowledged after 8 reads and 2 frames |
| SerialControl.MatchingMembers | serial_control.py:123 | a port is listed iff it is `/dev/` + some `/dev/` entry containing the base name |
| SerialControl.UnseenMembers | serial_control.py:124-126 | new ports are exactly the listed ones not yet seen; the chosen one is the first listed port not yet seen |
| SerialControl.Reconnected | serial_control.py:121-130 | `ReconnectIfNeeded`: after 30 s, the first unseen `/dev/` entry matching the base name becomes the port, all new ones join the old ports and the lookup time is the connection time; before 30 s, or when no new device is found, nothing changes |
| SerialControl.ReconnectProperties | serial_control.py:121-130 | no scan within 30 s of the last lookup; old ports only grow; a change picks an unseen `/dev/` entry matching the base name and takes the connection time as lookup time; the lookup time moves only with a new port; the serial streams and the parser are untouched |
| SerialControl.ReadStep | serial_control.py:202-230 | one `Read`: a new parser when the last accepted byte is over 0.1 s old; then one read; an empty read, or a marker between frames, only counts an empty read; any other byte goes to `Taken` |
| SerialControl.Taken | serial_control.py:210-229 | an accepted byte: the empty-read count is reset, reading is set and the read time updated; the byte is added; a complete frame is returned and an errored one dropped, each making way for a new parser that is not reading |
| SerialControl.MarkersBetweenFramesDropped | serial_control.py:202-209 | between frames an empty read or an `R`/`E` marker is dropped: counted as an empty read, no frame, read time kept |
| SerialControl.StaleFrameRestarted | serial_control.py:203-205 | more than 0.1 s after the last accepted byte a new parser takes the next byte; the read time and empty-read count are reset |
| SerialControl.CompletionBeforeError | serial_control.py:217-229 | a completing byte returns the frame and starts a new parser; an error drops the frame; otherwise the parser goes on and reading stays set |
| SerialControl.FlaggedFrameDeliveredWithoutChecksums | serial_control.py:60-64 | in `no_checksums` mode the last command byte delivers the frame even when its error flag is set |
| SerialControl.SerialInterface.constructor | serial_control.py:102-113 | a new interface has no lookups, no old ports and a fresh parser, then reconnects once |
| SerialControl.SerialInterface.ReconnectIfNeeded | serial_control.py:121-130 | performs `Reconnected` on the interface's state |
| SerialControl.SerialInterface.MessageToBytes | serial_control.py:132-146 | returns the frame of the address, command and timeout |
| SerialControl.SerialInterface.Fletcher16Checksum | serial_control.py:148-154 | returns the checksum of the data: the byte sum and the prefix-sum sum, each mod 256 |
| SerialControl.SerialInterface.GetSlaveState | serial_control.py:189-200 | returns the polled state and consumes exactly the reads the poll used; none when no marker ever arrives |
| SerialControl.SerialInterface.WaitForReady | serial_control.py:162-163 | returns when READY arrives, having consumed exactly the wait's reads |
| SerialControl.SerialInterface.SendBytes | serial_control.py:166-171 | appends the bytes to what was written |
| SerialControl.SerialInterface.TryOnce | serial_control.py:162-185 | one retry pass: outcome, reads consumed, and one frame written per frame sent |
| SerialControl.SerialInterface.SendWithRetries | serial_control.py:161-187 | the retry loop: the outcome of `Attempts`, its reads consumed and its frames written |
| SerialControl.SerialInterface.Write | serial_control.py:156-187 | reconnects if needed, then runs the retry loop on the reconnected state |
| SerialControl.SerialInterface.Read | serial_control.py:202-230 | performs `ReadStep`: the new state, and the frame it returns if one completed |
| SerialControl.SerialInterface.Take | serial_control.py:210-229 | the accepted-byte branch of `Read` |
| SerialControl.SerialInterface.Clear | serial_control.py:234-235 | replaces the parser with a fresh one without an expected length |
| FirmwareMessage.TakeCommandByte | lib/message.h:60-62 | corrected: a command byte is stored at its index inside the buffer, or sets the error when the index is outside it; it is folded into the sums either way |
| FirmwareMessage.Step | lib/message.h:46-81 | corrected `AddByte`: the same branches as the source, except that a command byte outside the 50-byte buffer sets the error instead of being written (see `StepAsWritten` for the source form) |
| FirmwareMessage.Cleared | lib/message.h:33-43 | `Clear` resets the flags, index, address, command length and sums, and keeps address length, timeout and buffer |
| FirmwareMessage.Reloaded | lib/message.h:23-31 | `Reset` sets a one-byte address and the command length, overwrites the buffer's prefix and keeps the rest |
| FirmwareMessage.StepAsWritten | lib/message.h:60-62 | the source's step is undefined exactly when a command byte's index is outside the buffer, and is `Step` otherwise |
| FirmwareMessage.FeedAppend | lib/message.h:46-81 | feeding `xs + ys` is feeding `xs` then `ys` |
| FirmwareMessage.FeedHeader | lib/message.h:47-59 | a header with one address byte is read with no completion |
| FirmwareMessage.PayloadStep | lib/message.h:60-62 | a command byte inside the buffer is stored at its index and folded into the sums |
| FirmwareMessage.FeedPayload | lib/message.h:60-62 | command bytes inside the buffer overwrite it in order, with no completion |
| FirmwareMessage.FeedBody | lib/message.h:46-62 | a frame body decodes the header and the command with the running checksum, and does not complete |
| FirmwareMessage.FeedChecksums | lib/message.h:63-74 | two checksum bytes change only the index and the error: error iff either mismatches (or an earlier error); complete iff no error |
| FirmwareMessage.FeedFrame | lib/message.h:46-81 | for any trailing sums, only the last byte can complete, and it completes iff both match |
| FirmwareMessage.RoundTrip | lib/message.h:46-81 | a host-encoded frame with a command that fits is parsed: completes on the last byte only, with the fields decoded and the sums equal to the frame's checksum bytes |
| FirmwareMessage.CorruptedFrameRejected | lib/message.h:63-79 | checksum sensitivity: a host frame that fits the buffer, with any one byte from index 2 on replaced by a different byte, never completes and sets `error_` |
| FirmwareMessage.MismatchRejected | lib/message.h:63-79 | a header `[1, n, t, a]`, any `n` bytes that fit and trailing bytes that are not their sums: nothing completes and `error_` is set |
| FirmwareMessage.FeedHeaderAndPayload | lib/message.h:46-80 | a header and as many bytes as it announces: nothing completes, no error, and the sums are the checksum of what was fed |
| FirmwareMessage.StepKeepsError | lib/message.h:46-81 | the error flag is sticky |
| FirmwareMessage.CompletesIff | lib/message.h:69-74 | `AddByte` returns true iff it is the first-sum byte, the byte matches and there was no error |
| FirmwareMessage.ErrorNeverCompletes | lib/message.h:69-74 | after an error no byte completes |
| FirmwareMessage.FoldedUnlessChecksum | lib/message.h:63-79 | every byte except the two checksum bytes is folded into the sums |
| FirmwareMessage.BadChecksumNeverCompletes | lib/message.h:63-74 | a mismatching checksum byte sets the error and nothing after it completes |
| FirmwareMessage.NoAddressLengthCheck | lib/message.h:47-49 | unlike the host, any address length is taken without error |
| FirmwareMessage.AfterEndOnlyFolds | lib/message.h:75-79 | a byte past the frame is only folded into the sums, with no error flagged |
| FirmwareMessage.CompletedChecksums | lib/message.h:63-74 | a frame that completes had checksum bytes equal to the running sums, which the message then reports |
| FirmwareMessage.AddressLittleEndian | lib/message.h:56-59 | address bytes are least significant first |
| FirmwareMessage.OverrunFlagged | lib/message.h:60-62 | corrected step: a command byte outside the buffer leaves the buffer unchanged, sets the error and does not complete |
| FirmwareMessage.OverrunReachable | lib/message.h:60-62 | the header `1, 51, t, a` and 50 command bytes bring the parser to command index 50, where the source's write is outside `command_` |
| FirmwareMessage.Message.constructor | lib/message.h:9-11 | `Message()` is the empty cleared message |
| FirmwareMessage.Message.WithCommand | lib/message.h:13-19 | `Message(address, length, command)` loads a one-byte address and the command prefix |
| FirmwareMessage.Message.Reset | lib/message.h:23-31 | performs `Reloaded` |
| FirmwareMessage.Message.Clear | lib/message.h:33-43 | performs `Cleared` |
| FirmwareMessage.Message.AddByte | lib/message.h:46-81 | performs the corrected `Step` on the fields and the array buffer |
| FirmwareMessage.Message.Address | lib/message.h:83-85 | returns the address |
| FirmwareMessage.Message.AddressLength | lib/message.h:87-89 | returns the address length |
| FirmwareMessage.Message.Command | lib/message.h:91-94 | returns the buffer and the command length |
| FirmwareMessage.Message.Error | lib/message.h:96-98 | returns the error flag |
| FirmwareMessage.Message.FirstChecksum | lib/message.h:100-102 | returns the first sum |
| FirmwareMessage.Message.SecondChecksum | lib/message.h:104-106 | returns the second sum |
| TimedCallbacks.Due | lib/timed_callback.h:16 | the firing test: strictly more than the delay has elapsed, in 32-bit arithmetic |
| TimedCallbacks.Started | lib/timed_callback.h:9-12 | a new timer: the delay, the start time and alive |
| TimedCallbacks.Updated | lib/timed_callback.h:14-20 | one `Update`: a live, due timer fires and is gone; any other update changes nothing |
| TimedCallbacks.Elapsed | lib/timed_callback.h:16 | `now - start_time_` in `unsigned long`: the difference, or wrapped by 2^32 when the clock is below the start |
| TimedCallbacks.WrapSafe | lib/timed_callback.h:14-20 | `d` ms after the start (any `d` < 2^32, across a clock wrap or not) the timer is due iff `d` exceeds the delay |
| TimedCallbacks.QuietUpdateChangesNothing | lib/timed_callback.h:14-20 | an `Update` that does not fire changes nothing, and one that fires changes the timer |
| TimedCallbacks.FiresAtMostOnce | lib/timed_callback.h:14-20 | over any sequence of updates the callback runs at most once, the timer is gone after it, and a dead timer never fires |
| TimedCallbacks.TimedCallback.constructor | lib/timed_callback.h:9-12 | records the delay and the start time |
| TimedCallbacks.TimedCallback.Update | lib/timed_callback.h:14-20 | performs `Updated`: fires once due and then the timer is gone |
| SerialModule.Settle | lib/serial_module.h:28-35 | one pass of the read loop on the corrected `Step`: a byte that leaves the parser in error without completing clears it |
| SerialModule.Ticked | lib/serial_module.h:18-39 | one `Tick`: while sending only the timer is updated, and a firing sends the frame; otherwise a pending clear is done and the read loop runs, marking the next clear when it returns a frame |
| SerialModule.Takes | lib/serial_module.h:44-48 | `AcceptMessage` lays out a frame exactly when not sending and the address is nonzero |
| SerialModule.Pump | lib/serial_module.h:27-36 | the read loop, on the corrected parser, reads at most what is waiting; it stops early only on a completed frame, after reading it; otherwise it reads everything |
| SerialModule.NoErrorAtEnd | lib/serial_module.h:33-35 | a run that ends without error had no error along the way (the error flag is sticky) |
| SerialModule.PumpStopsAtCompletion | lib/serial_module.h:27-36 | the loop stops right after the first completing byte, leaving the following bytes unread |
| SerialModule.PumpFrame | lib/serial_module.h:27-36 | a frame at the head of the port is read exactly, decoded and returned; what follows is left waiting |
| SerialModule.PumpRestartsAfterError | lib/serial_module.h:33-35 | a byte that puts the parser in error clears it and reading continues with the next byte |
| SerialModule.SendAll | lib/serial_module.h:69-74 | `SendBytes` writes the first `length_sending_` buffer bytes in order and clears `sending_`, and changes nothing else |
| SerialModule.Layout | lib/serial_module.h:48-58 | the outgoing frame is six bytes longer than the command |
| SerialModule.Accept | lib/serial_module.h:43-67 | accepts iff not sending and the address is nonzero; a refusal changes nothing; an acceptance lays out the frame, keeps the rest of the buffer, starts a zero-delay timer and sets `sending_` |
| SerialModule.TickKeepsInv | lib/serial_module.h:18-39 | `Tick` keeps the sending length inside the buffer and the timer alive while sending |
| SerialModule.AcceptKeepsInv | lib/serial_module.h:43-67 | `AcceptMessage` keeps the same invariant |
| SerialModule.SendingReadsNothing | lib/serial_module.h:19-22 | while sending, `Tick` reads nothing and returns nothing: once due it writes the frame, otherwise nothing changes |
| SerialModule.TickReceivesFrame | lib/serial_module.h:18-39 | an idle module with a frame waiting returns it decoded, leaves the rest waiting and marks the parser for clearing |
| SerialModule.ClearedOnNextTick | lib/serial_module.h:23-32 | after returning a frame, the next `Tick` behaves as on a cleared parser |
| SerialModule.ReencodeReproducesFrame | lib/serial_module.h:48-58 | a frame decoded then laid out again (timeout 0) is byte-for-byte the original frame |
| SerialModule.AcceptThenSend | lib/serial_module.h:43-74 | an accepted message goes out in full on the next `Tick` at a later millisecond, and the timer is gone |
| SerialModule.SerialRXModule.constructor | lib/serial_module.h:15-16 | a new module: empty parser, nothing waiting, not sending |
| SerialModule.SerialRXModule.Tick | lib/serial_module.h:18-39 | performs `Ticked` (on the corrected parser), returning the module's own message when a frame completed |
| SerialModule.SerialRXModule.ReadUntilComplete | lib/serial_module.h:27-36 | the read loop performs `Pump` and consumes exactly the bytes it read |
| SerialModule.SerialRXModule.Absorb | lib/serial_module.h:28-35 | one pass of the read loop: add the byte, clear on error |
| SerialModule.SerialRXModule.AcceptMessage | lib/serial_module.h:43-67 | performs `Accept` |
| SerialModule.SerialRXModule.LayOut | lib/serial_module.h:48-58 | writes `Layout(msg)` into the buffer's prefix and keeps the rest |
| SerialModule.SerialRXModule.SendBytes | lib/serial_module.h:69-74 | writes the buffer prefix to the port and clears `sending_` |
| BidirSerialModule.Flushed | lib/bidir_serial_module.h:130-138 | `ReadFlushingErrors` with nothing read yet: the loop of `Flush` from its start |
| BidirSerialModule.Flush | lib/bidir_serial_module.h:130-138 | the flush loop returns true iff something was read, and reads at least one waiting byte |
| BidirSerialModule.FlushedMeaning | lib/bidir_serial_module.h:130-138 | `ReadFlushingErrors` skips leading ERROR bytes and outputs the first other byte; it is ERROR only when every byte waiting was ERROR, and then it reads them all |
| BidirSerialModule.FlushTail | lib/bidir_serial_module.h:132-136 | after an ERROR byte, the loop on the rest acts as a fresh flush |
| BidirSerialModule.Drained | lib/bidir_serial_module.h:145-150 | `ReadWithTimeout` succeeds iff exactly one byte was waiting, and outputs the last byte read |
| BidirSerialModule.Receive | lib/bidir_serial_module.h:61-103 | the receive switch on a non-ERROR status: a payload announcement in READY_AND_SENDING or READY_AND_DONE drains one byte and feeds the corrected parser (a failed drain sends ERROR), SENT_LAST with anything else clears it and returns to READY_AND_DONE, and every other case sends ERROR and stops the tick |
| BidirSerialModule.Transmitted | lib/bidir_serial_module.h:105-125 | the transmit switch: SENT_LAST falls through to READY_AND_DONE, which writes READY_AND_DONE; READY_AND_SENDING writes the status and the next frame byte, and moves to SENT_LAST after the last one |
| BidirSerialModule.Ticked | lib/bidir_serial_module.h:51-128 | one `Tick` (on the corrected parser): nothing waiting does nothing; only ERROR bytes waiting reset the receiver and go on to the transmit half; otherwise the receive half runs and, unless it sent ERROR, the transmit half follows; the message is returned when it completed |
| BidirSerialModule.RXReset | lib/bidir_serial_module.h:177-185 | `ResetRX` clears the parser and the send index, sets the receiver READY_AND_DONE and restarts an active transmission from index 0 |
| BidirSerialModule.ErrorSent | lib/bidir_serial_module.h:172-175 | `SendError` writes ERROR then resets the receiver |
| BidirSerialModule.ResetRXKeepsInv | lib/bidir_serial_module.h:172-185 | resets keep the invariant: states are status codes, and a transmission's index stays inside a nonempty frame |
| BidirSerialModule.TransmitKeepsInv | lib/bidir_serial_module.h:105-125 | the transmit half keeps the invariant |
| BidirSerialModule.TickKeepsInv | lib/bidir_serial_module.h:51-128 | `Tick` keeps the invariant |
| BidirSerialModule.TickOutput | lib/bidir_serial_module.h:51-128 | a `Tick` only appends to the port: nothing, ERROR, READY_AND_DONE, or READY_AND_SENDING with one byte of the outgoing frame |
| BidirSerialModule.IncomingErrorResets | lib/bidir_serial_module.h:62-63 | when only ERROR bytes wait, `Tick` resets the receiver and then transmits |
| BidirSerialModule.ReceiveTransitions | lib/bidir_serial_module.h:65-102 | receive state machine: a payload is fed to the parser (SENT_LAST when complete); after SENT_LAST any non-sending status returns to READY_AND_DONE and clears the parser; any other pairing sends ERROR |
| BidirSerialModule.PayloadByteMustBeAlone | lib/bidir_serial_module.h:74-79 | a payload announcement followed by no byte, or by more than one, sends ERROR |
| BidirSerialModule.Layout | lib/bidir_serial_module.h:200-207 | the outgoing frame is four bytes longer than the command (no checksums) |
| BidirSerialModule.Takes | lib/bidir_serial_module.h:188-199 | `AcceptMessage` lays out a frame exactly when the transmitter is idle and the address is not the module's own |
| BidirSerialModule.AcceptAsWritten | lib/bidir_serial_module.h:187-215 | `AcceptMessage` as written: a busy transmitter refuses; otherwise it switches to sending at index 0 before the local check, so a local message is refused but leaves it sending |
| BidirSerialModule.Load | lib/bidir_serial_module.h:200-207 | the frame is laid into the buffer's prefix; the rest is kept |
| BidirSerialModule.Accept | lib/bidir_serial_module.h:187-215 | corrected: accepts iff idle and not a local address, a refusal changes nothing; an acceptance starts sending the laid-out frame from index 0 |
| BidirSerialModule.AcceptAgreesUnlessLocal | lib/bidir_serial_module.h:187-215 | for any non-local address the corrected `Accept` is the source's |
| BidirSerialModule.AcceptKeepsInv | lib/bidir_serial_module.h:187-215 | the corrected `Accept` keeps the invariant |
| BidirSerialModule.LocalMessageStillSent | lib/bidir_serial_module.h:192-198 | as written, refusing a local message with no previous frame still switches to sending, which breaks the invariant (index 0 of an empty frame); the corrected `Accept` leaves the module unchanged, and its next `Tick` writes READY_AND_DONE only |
| BidirSerialModule.LocalMessageResendsStaleFrame | lib/bidir_serial_module.h:192-198 | as written, refusing a local message makes the next `Tick` send the first byte of the previous frame; the corrected module sends READY_AND_DONE |
| BidirSerialModule.BidirSerialRXModule.constructor | lib/bidir_serial_module.h:46-49 | both state machines start READY_AND_DONE with nothing to send, and the invariant holds |
| BidirSerialModule.BidirSerialRXModule.Tick | lib/bidir_serial_module.h:51-128 | performs `Ticked` (on the corrected parser), returning the incoming message when it completed |
| BidirSerialModule.BidirSerialRXModule.ReceiveHalf | lib/bidir_serial_module.h:61-103 | performs `Receive` (on the corrected parser) |
| BidirSerialModule.BidirSerialRXModule.Transmit | lib/bidir_serial_module.h:105-125 | performs `Transmitted` |
| BidirSerialModule.BidirSerialRXModule.ReadFlushingErrors | lib/bidir_serial_module.h:130-138 | performs `Flushed`, consuming exactly the bytes it read |
| BidirSerialModule.BidirSerialRXModule.ReadWithTimeout | lib/bidir_serial_module.h:140-151 | performs `Drained` and empties the port |
| BidirSerialModule.BidirSerialRXModule.SendError | lib/bidir_serial_module.h:172-175 | performs `ErrorSent` |
| BidirSerialModule.BidirSerialRXModule.ResetRX | lib/bidir_serial_module.h:177-185 | performs `RXReset` |
| BidirSerialModule.BidirSerialRXModule.AcceptMessage | lib/bidir_serial_module.h:187-215 | performs the corrected `Accept` |
| BidirSerialModule.BidirSerialRXModule.LayOut | lib/bidir_serial_module.h:200-207 | writes `Layout(msg)` into the buffer's prefix and keeps the rest |
| ArduinoLoop.LoopFrom | lib/arduinoio.h:31-51 | the calls `HandleLoopMessages` makes from module i on: the pending message replaces module i's tick, and a message in hand is offered to every module |
| ArduinoLoop.Broadcast | lib/arduinoio.h:42-44 | `AcceptMessage` on every module, in registration order |
| ArduinoLoop.BroadcastOnlyAccepts | lib/arduinoio.h:42-44 | a broadcast ticks no module |
| ArduinoLoop.TicksFrom | lib/arduinoio.h:31-51 | with no pending message, modules i.. are ticked once each, in order |
| ArduinoLoop.LoopStep | lib/arduinoio.h:32-50 | one pass of the loop: tick module i, then broadcast what it returned |
| ArduinoLoop.AcceptsStep | lib/arduinoio.h:32-50 | the accepts of one pass are the broadcast of module i's result |
| ArduinoLoop.AcceptsFrom | lib/arduinoio.h:31-51 | the accepts made are the broadcasts of the produced messages, in order |
| ArduinoLoop.EveryModuleTickedOnce | lib/arduinoio.h:31-51 | `HandleLoopMessages` ticks every module exactly once, in order, and broadcasts to all modules each message returned, in order |
| ArduinoLoop.PendingFirstMessage | lib/arduinoio.h:31-51 | a pending first message replaces module 0's tick: it is broadcast first and all other modules are ticked |
| ArduinoLoop.ArduinoIO.constructor | lib/arduinoio.h:17-18 | no modules and no pending message |
| ArduinoLoop.ArduinoIO.Add | lib/arduinoio.h:26-29 | appends the module to the registry |
| ArduinoLoop.ArduinoIO.HandleLoopMessages | lib/arduinoio.h:31-51 | makes exactly the calls of `LoopFrom`; the pending message is cleared when at least one module is registered, and kept otherwise |
| ArduinoLoop.ArduinoIO.Offer | lib/arduinoio.h:42-44 | the inner loop makes exactly the broadcast calls |

## Left out

- Serial I/O is not performed:
  - the host's `serial.Serial`, `Connect` (opening the port and its 2 s sleep) and `os.listdir` are not called;
  - the firmware's `SoftwareSerial`/`Serial` calls are not made either;
  - ports are modelled as sequences of bytes waiting (`rx`, `input`, where `None` is an empty read) and bytes written (`tx`, `written`);
  - `/dev/` listings and connection times are parameters.
- Clocks are parameters: `time.time()` is a real number of seconds, and `millis()` is a 32-bit value.
- The host's `write_mutex` lock, logging, `verbose` printing, the "stuck" time checks inside `Write`, `__str__` and the `Command` constants are not modelled. They do not affect any result.
- SerialControl.SerialInterface.GetSlaveState: where the source spins forever (no marker ever arrives), the model returns `None`. Likewise the READY wait and the ack wait of `Write` end in `Stalled`. The ack `while True` loop is a single poll, because `GetSlaveState` never returns UNKNOWN.
- SerialControl.SerialInterface.Write: raising "failed to write" is the outcome `Failed`.
- SerialControl.SerialInterface.Write and SerialControl.SerialInterface.Read run even while `port` is `None`. In the source `self.ser` exists only after a successful `Connect`, so they would raise `AttributeError` before any device is found. That exception is not modelled.
- SerialControl.SerialInterface.MessageToBytes requires the command to fit (`|command| + 1 < 256`). The source's `chr()` would raise for a longer command; that exception is not modelled.
- The timeout and address arguments are bytes in the model. The source's `chr()` would raise for larger values.
- SerialControl.SerialInterface.Read: `no_checksums` is a parameter of each step, as the source sets it on the message at each call. One `now` stands for both `time.time()` calls, the staleness test and the new `last_read_time`, so the time that passes between them is not modelled.
- HostMessage: the source sets up `no_checksums` only in `Read`. The model has no "attribute missing" failure for an `AddByte` before that.
- Checksum sensitivity (HostMessage.CorruptedFrameRejected and FirmwareMessage.CorruptedFrameRejected) covers a change to any one byte from the timeout (index 2) on. The command-length byte (index 1) is not protected by the checksum (the host checks it only against an expected length, when one is given): a shorter length makes the parser take the checksum from command bytes, so a frame can complete when those bytes happen to equal the sums of the truncated frame. The firmware does not check the address-length byte (index 0) either; the host does (HostMessage.AddressLengthChecked).
- FirmwareMessage.AddressLittleEndian: the address is an unbounded natural number. It equals the firmware's `int address_` only for one-byte addresses, the only ones the host encodes. For longer addresses the firmware loses bits or is undefined from the second byte on a 16-bit `int`: `b << 8` leaves the range for `b` ≥ 0x80, and `<< 16` is undefined. Even with a 32-bit `int`, a fourth byte of 0x80 or more overflows. The model does not capture this. The host is unaffected, because Python integers are unbounded.
- Fields the source leaves uninitialised are taken as zero/false (the pointer `timed_callback_` as null, the send buffers as zero bytes). These are:
  - `clear_on_next_tick_`, `length_sending_`, `bytes_sending_` and `timed_callback_` of `SerialRXModule`;
  - `next_send_index_`, `length_sending_` and `bytes_sending_` of `BidirSerialRXModule`; BidirSerialModule.LocalMessageStillSent starts from that zero send length, which in the source is indeterminate;
  - `address_length_`, `timeout_` and `command_` after `Message()`;
  - the flags, index and sums after the three-argument `Message` constructor.
- FirmwareMessage.Message.Reset and FirmwareMessage.Message.WithCommand require a command of at most 50 bytes and a source array at least that long. The source copies without a bound, and any overrun is undefined.
- SerialModule.SerialRXModule.AcceptMessage requires command length + 6 ≤ 50 when it accepts. The source writes past `bytes_sending_[50]` otherwise.
- BidirSerialModule.BidirSerialRXModule.AcceptMessage requires command length + 4 ≤ 50 for the same reason.
- Both `AcceptMessage`s also require the message not to share its buffer with the module's send buffer. In the source they are distinct arrays.
- ArduinoLoop.ArduinoIO.Add requires fewer than 10 modules. The source writes past `modules_[10]` otherwise.
- ArduinoLoop: modules are identifiers. What each `Tick()` returns in a pass is a parameter, and what `AcceptMessage` does inside a module is not modelled here; it is modelled per module in SerialModule and BidirSerialModule. The module destructor loop and `delete first_message_` are memory management. `first_message_` is never set in the source; PendingFirstMessage covers the branch anyway.
- TimedCallbacks: the target object and its member function are not stored, so `Update` reports firing and its caller runs the callback. `delete this` is modelled as the timer going dead. TimedCallbacks.TimedCallback.Update requires a live timer, because calling it after deletion is undefined in the source.
- BidirSerialModule.BidirSerialRXModule.Tick:
  - the byte given to the parser is a parameter, since the source feeds it a fresh `Serial.read()` rather than the byte it checked;
  - the timeout branch that runs with nothing waiting (it compares raw `micros()` with a constant that is never defined) does nothing in the model;
  - the fields the class never declares (`message_`, `kCommunicationTimeout`, and `sending_`, which the constructor initialises) are mapped to `incoming_message_`, and the missing return value is mapped to "nothing returned"; `sending_` has no counterpart in the model, and `last_communication_time_` only serves the timeout branch.
- BidirSerialModule.BidirSerialRXModule.ReadWithTimeout: the 200 ms busy wait for a first byte is not modelled. The port either has bytes waiting or the wait fails.
- BidirSerialModule: `send_only` is accepted and ignored, as in the source. The disabled `kSendChecksums` branch is left out because its constant is false.
- The class methods HostMessage.Message.TakeHeaderByte, SerialModule.SerialRXModule.Absorb, SerialControl.SerialInterface.Take, SerialControl.SerialInterface.TryOnce, SerialControl.SerialInterface.WaitForReady and ArduinoLoop.ArduinoIO.Offer are parts of one source function each, split out as methods.
- lib/uc_module.h (the module interface) and example.cc are not part of this model.
- `BidirSerialRXModule`'s constructor is private in the source (it comes before any `public:`), so the class cannot be constructed as written. The model gives it a public constructor.
- lib/bidir_serial_module.h reuses the include guard `JDUINO_UC_SERIAL_MODULE_H_` of lib/serial_module.h, so the two headers cannot be included together. The model keeps them in separate modules.
- lib/serial_module.cc defines the members of lib/serial_module.h a second time with the same bodies (only the indentation differs), which is a redefinition in C++. It is modelled once, from the header.

## Findings

| source | as written | input that shows it | evidently intended | confidence | as-written member | corrected member |
|---|---|---|---|---|---|---|
| lib/message.h:60-62 | a command byte is stored at `command_[byte_index_ - address_length_]` with no bound on the index | the header `1, 51, t, a` then 51 command bytes: the 51st is written to `command_[50]`, outside the 50-byte buffer | a command byte outside the buffer is flagged as an error, not stored | not executed | FirmwareMessage.OverrunReachable | FirmwareMessage.OverrunFlagged |
| lib/bidir_serial_module.h:192-198 | `transmit_state_` becomes READY_AND_SENDING at index 0 before the local-address check that refuses the message | an idle module, previous frame still in `bytes_sending_`, offered a message with its own address: it returns false, yet the next `Tick` sends `bytes_sending_[0]` | a refused local message leaves the transmitter idle | not executed | BidirSerialModule.LocalMessageResendsStaleFrame | BidirSerialModule.Accept |
