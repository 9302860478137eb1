# ZPHS01B UART frame protocol in Dafny

A model of the frame protocol at the heart of the Arduino driver for the Winsen
ZPHS01B multi-gas module (the library text still calls it the MH-Z19B). The
driver talks to the module over a serial stream:

- it builds the 9-byte request frame `FF 01 c0 c1 c2 00 00 00 cs`, where `cs`
  is the command checksum, and writes it;
- it discards received bytes until the next one is the header marker `0xFF`;
- it fails when fewer than a whole frame of bytes is waiting;
- otherwise it copies one frame into its cached frame buffer and exchanges
  bytes 2 and 3;
- it accepts the frame when the negated `uint8_t` sum of bytes `1 .. N-2`
  equals the last byte;
- it reads 16-bit values from the cached buffer as `hi * 256 + lo`.

The project has three modules:

- `Checksum` (`checksum.dfy`): the `byte` type and the integer `Sum` of a byte
  sequence. It also holds `Negate`, the `(~x) + 1` of the source stored back
  into a `uint8_t`, the receive-side rule `ChecksumValid` and the command
  checksum `CmdCheckSum`. Lemmas cover their algebra and show that changing
  one byte of a frame is always detected.
- `Protocol` (`protocol.dfy`): the request frame and the fixed measurement
  command. It holds header synchronisation `Sync`, the byte exchange
  `SwapBytes` and `ReceiveFrame`, the value-level meaning of one receive
  attempt. Lemmas give the round trip of a request frame, the verdict of a
  receive attempt, and what the cache holds afterwards.
- `Driver` (`driver.dfy`): the driver object as a class `ZPHS01B`. Its fields
  are the cached frame buffer (an `array`), the bytes still waiting on the
  serial port (`input`, consumed from the front) and a log of every byte
  written (`output`). Its methods use the same loops as the source, and each
  one's postcondition is tied to the `Protocol` functions. The 16-bit
  accessors are functions over the buffer.

The frame size (`SIZEOF_FRAME`) and the field offsets of the union frame
layout are defined in `ZPHS01B.h`, which is not part of this model. They are
constructor parameters here. The frame size is between 5 and 256:

- at least 5, so that positions 2 and 3 lie inside the checksummed range;
- at most 256, because the checksum loop counts with a `uint8_t` and would
  not stop for a larger frame.

The model creates the object with a zeroed frame buffer. The source
constructor (ZPHS01B.cpp:65-67) never initialises the frame buffer, so it is
zero only for an object with static storage; no proof depends on the initial
contents.

Two behaviours of the receive path are worth stating plainly:

- **A checksum failure overwrites the cache.** The library's own
  documentation (ZPHS01B.cpp:31) says a value "is available after successful
  getPPM() reading only; otherwise, will return previous value". The code
  breaks that promise for a checksum failure: lines 144-155 copy the frame
  into the cache and swap it before the test at lines 166-176, so a failed
  frame stays in the cache. Only the "not enough bytes" path (lines 138-141)
  leaves the cache as it was. The model does what the code does;
  `ReceiveCache` and `ReceiveShortStream` state both behaviours.
- **Byte 1 is never compared with anything.** A response is accepted whatever
  its second byte when the sum matches; byte 1 only takes part in the sum.

`Protocol.ParseCommand` reads a request frame back into its three command
bytes. The source has no counterpart; it exists only to state the round trip
of the request frame (`CommandRoundTrip`).

## Model

| member | source | states |
|---|---|---|
| `Checksum.Negate` | ZPHS01B.cpp:184 | `(~x) + 1` stored in a `uint8_t` is the byte that brings `x` back to 0 mod 256 |
| `Checksum.NegateUnique` | ZPHS01B.cpp:168 | the negated byte is the only byte that cancels `x` mod 256, so the checksum comparison tests "sum plus checksum is 0 mod 256" |
| `Checksum.ChecksumValid` | ZPHS01B.cpp:166-170 | a frame passes the receive-side rule when its last byte equals the `uint8_t` negation of the sum of bytes 1 to N-2, that is, when that sum plus the last byte is 0 mod 256 |
| `Checksum.CmdCheckSum` | ZPHS01B.cpp:180-189 | the command checksum makes `0x01 + c0 + c1 + c2 + cs` vanish mod 256 |
| `Checksum.CmdCheckSumUnique` | ZPHS01B.cpp:180-189 | a byte makes the command sum vanish mod 256 if and only if it is the command checksum |
| `Checksum.CorruptionDetected` | ZPHS01B.cpp:166-176 | replacing any one byte at positions 1 to N-1 of a frame that passes the receive-side rule with a different value makes it fail |
| `Protocol.CommandFrame` | ZPHS01B.cpp:196-206 | the request frame is 9 bytes: `0xFF`, `0x01`, the three command bytes, three zeros, the fourth command byte |
| `Protocol.ReadCommand` | ZPHS01B.cpp:77 | the measurement request is code 0x86 with zero parameters, and its literal last byte 0x79 is the command checksum of `86 00 00` |
| `Protocol.CommandFrameChecksum` | ZPHS01B.cpp:180-206 | a request frame passes the receive-side rule with N = 9 if and only if its last command byte is the command checksum |
| `Protocol.CommandRoundTrip` | ZPHS01B.cpp:196-206 | parsing a request frame recovers the three command bytes exactly when the command carries its checksum, and rejects it otherwise |
| `Protocol.ReadCommandFrame` | ZPHS01B.cpp:75-78 | the frame `read` sends parses back as the well-formed request `86 00 00` |
| `Protocol.Sync` | ZPHS01B.cpp:131-133 | synchronisation leaves a suffix of the stream, every dropped byte is not `0xFF`, and the rest is empty or starts with `0xFF` |
| `Protocol.SwapBytes` | ZPHS01B.cpp:150-155 | the exchange swaps positions 2 and 3 and leaves every other position and the length unchanged |
| `Protocol.SwapBytesInvolution` | ZPHS01B.cpp:150-155 | exchanging twice gives back the original frame |
| `Protocol.SwapBytesChecksum` | ZPHS01B.cpp:150-168 | the exchange does not change the checksum verdict, since both positions lie in the summed range |
| `Protocol.ReceiveFrame` | ZPHS01B.cpp:128-177 | a receive attempt leaves a cache of frame length and an unread rest that is a suffix of the stream |
| `Protocol.ReceiveShortStream` | ZPHS01B.cpp:138-141 | with fewer than N bytes after synchronisation, the attempt fails, keeps the cache and consumes only the discarded bytes |
| `Protocol.ReceiveCache` | ZPHS01B.cpp:144-155 | with at least N bytes, the cache is the first N synchronised bytes with positions 2 and 3 exchanged, whatever the verdict, and exactly N bytes are consumed |
| `Protocol.ReceiveVerdict` | ZPHS01B.cpp:166-176 | an attempt succeeds if and only if N bytes follow synchronisation and the frame as it arrived passes the receive-side rule |
| `Driver.BigEndian16` | ZPHS01B.cpp:84-106 | `hi * 256 + lo` lies in 0..65535, and its high and low bytes are `hi` and `lo` |
| `Driver.CalcCmdCheckSum` | ZPHS01B.cpp:180-189 | the wrapping accumulator loop returns the byte that cancels `0x01 + c0 + c1 + c2` mod 256, which is `CmdCheckSum` |
| `Driver.ZPHS01B.constructor` | ZPHS01B.cpp:65-67 | the driver wraps the given stream, with an empty write log and a zeroed frame buffer of frame length |
| `Driver.ZPHS01B.SendCmd` | ZPHS01B.cpp:192-208 | the write loops append exactly the 9-byte request frame of the command to the output |
| `Driver.ZPHS01B.SyncHeader` | ZPHS01B.cpp:131-133 | the discard loop leaves the input at `Sync` of the old input |
| `Driver.ZPHS01B.ReadBytes` | ZPHS01B.cpp:144 | the frame buffer receives exactly the next N input bytes, and they are consumed |
| `Driver.ZPHS01B.SwapHighLow` | ZPHS01B.cpp:150-155 | the buffer afterwards is `SwapBytes` of the buffer before |
| `Driver.ZPHS01B.FrameCheckSum` | ZPHS01B.cpp:166-168 | the wrapping sum loop returns the byte that cancels the sum of bytes 1 to N-2 mod 256, and it equals the last byte exactly when the buffer passes the receive-side rule |
| `Driver.ZPHS01B.ReadData` | ZPHS01B.cpp:128-177 | the verdict, the new buffer and the rest of the input are those of `ReceiveFrame` on the old input and old buffer |
| `Driver.ZPHS01B.Read` | ZPHS01B.cpp:75-82 | appends the request frame of `86 00 00 79` to the output, then behaves as `ReadData` |
| `Driver.ZPHS01B.GetPM1` | ZPHS01B.cpp:84-86 | PM1.0 is the 16-bit value whose high and low bytes are the two cached PM1 bytes |
| `Driver.ZPHS01B.GetPM2` | ZPHS01B.cpp:88-90 | PM2.5 is the 16-bit value whose high and low bytes are the two cached PM2.5 bytes |
| `Driver.ZPHS01B.GetCO2` | ZPHS01B.cpp:92-94 | CO2 is the 16-bit value whose high and low bytes are the two cached CO2 bytes |
| `Driver.ZPHS01B.GetHumidity` | ZPHS01B.cpp:104-106 | humidity is the 16-bit value whose high and low bytes are the two cached humidity bytes |

The accessors are functions of the buffer alone, so two calls with no read in
between return the same value.

## Left out

- Serial diagnostics (`Serial.print`/`println`, the `DEBUG` blocks) and `delay(20)` are console output and timing only.
- `flush()` and `setTimeout(100)` are transport plumbing; the constructor models only the wrapped stream.
- Read timeouts: `readBytes` runs only after at least N bytes are known to be waiting, so it is modelled as taking exactly N bytes.
- The module's reply is not derived from the request. `input` is whatever the serial port holds when the read starts. The request and the reply are kept in two separate sequences, though both go through one serial object.
- `getTemp`, `getCH2O`, `getCO` and `getO3`/`getNO2` scale by `0.1` or `0.001` in floating point and convert to `uint16_t`; `getTemp` can go negative first. Floating point is not modelled.
- `getVOC` returns a field whose type is defined in `ZPHS01B.h`, which is not part of this model.
- Calibration, detection-range and ABC commands appear in the file's doc comment only. No code for them exists in this file.
- The destructor is empty.
- On AVR boards (ZPHS01B.cpp:43), `int` is 16 bits, so `hi * 256` in the accessors (lines 85, 89, 93, 105) overflows signed `int` when the high byte is 128 or more. That is undefined behaviour, although it wraps in practice and the `uint16_t` result then equals `hi * 256 + lo`. The model uses that intended unbounded value.
- The command checksum loop is modelled as a module-level method. The source has it as a class member that uses no object state, and `read` never calls it; `read` uses the literal 0x79 instead.
