# PyHardwareLibrary core, modelled in Dafny

This project models the byte-level and message-level logic of PyHardwareLibrary, a Python
library that drives laboratory hardware. It covers five parts.

- **Text transaction layer** of `CommunicationPort`.
  - `readString` reads a line one byte at a time up to the first LF. `writeString` writes a string.
  - Three pattern-checked exchanges build on those two: write a command, read one reply line,
    match it.
  - Three ports stand behind the layer: the in-memory `DebugEchoCommunicationPort`, a
    `SerialPort` with exact-length checks, and a `SocketPort`.
- **SocketPort chunk loops.** `readData` calls `recv` until `length` bytes have arrived, never
  asking for more than 2048 bytes at a time. `writeData` keeps handing `send` the unsent suffix.
- **Cobolt laser simulator** (`CoboltDebugSerial`). It is a state machine holding the power, the
  on/off state, the requested power, the autostart flag and a FIFO reply buffer. `write`
  dispatches each command on the first pattern it contains.
- **Ocean Insight USB spectrometer driver** (`OISpectrometer`, `USB2000`, `USB4000`). It covers:
  - the split of endpoints by direction and their assignment;
  - command framing and the three integration-time encodings;
  - the two 16-byte status layouts;
  - parameter replies and the wavelength calibration;
  - spectrum reassembly for both models, checked by the 0x69 confirmation byte;
  - the USB4000 acquisition-flag polls;
  - the choice of the USB device to open.
- **`DeviceManager` registry.** It covers the singleton construction, the monitoring guard, the
  diff of connected USB devices, device add and remove, the filter by type and serial number,
  and the notifications it posts, kept as an ordered trace.

**How the model is built**
- Every operation is a pure function over an immutable state value. Some source loops are also
  written as methods, each proved equal to a recursive reference definition:
  - `SocketPort.ReadData` and `SocketPort.WriteData` (`RecvAll`, `SendAll`);
  - `OceanSpectrum.ReadRounds2000` and `OceanSpectrum.GetSpectrumData2000` (`Rounds2000`, `Spectrum2000`);
  - `OceanSpectrum.ReadPackets4000` and `OceanSpectrum.GetSpectrumData4000` (`Packets4000`, `Spectrum4000`);
  - `OceanDevice.IsSpectrumRequested4000` and `OceanDevice.IsSpectrumReady4000` (`RequestedPoll`, `ReadyPoll`).
- `DeviceManager.MatchPhysicalDevicesOfType` walks a set, whose iteration order is unspecified. It is
  characterised by its contract (membership and no duplicates), not by equality with a definition.
- Every other loop is modelled directly as a recursive function. Examples are the byte loop of
  `readString`, the in-memory `read` loops, the serial scan of `connectedUSBDevices` and the
  zero-byte scan of `getParameter`.
- Exceptions become `Err` values of `Result` (`errors.dfy`). Python's `None` becomes `Option`.
- Bytes are `seq<byte>`. Text is its byte encoding: UTF-8 encoding and decoding are the identity
  on ASCII, and any byte of 0x80 or more counts as a decode error.

**Transports and engines the model cannot see**
- A USB endpoint is a queue of the transfers it will deliver. `None` stands for a failed or
  timed-out transfer.
- The socket's `recv` and `send` are function parameters over an abstract peer state.
- Python's `re.search` / `re.match` are function parameters, except the Cobolt patterns:
  - the literal ones are substring searches;
  - the one real regex, `p (\d+\.?\d+)\r`, is written out exactly.
- Python's `float(text)` is a function parameter for the calibration coefficients
  (`OceanCalibration.ParseReal`). The Cobolt set-power text is parsed exactly by `Cobolt.ParsePower`.

**Modules**

| file | module | models |
|---|---|---|
| `errors.dfy` | `Errors` | results, options and the exceptions raised |
| `bytes.dfy` | `Bytes` | ASCII, the `struct` integer encodings, decimal text |
| `seqs.dfy` | `Seqs` | concatenation, filtering and the spectrum trim |
| `fifo.dfy` | `Fifo` | the pop-front read shared by the two in-memory devices |
| `debug_echo.dfy` | `DebugEcho` | `DebugEchoCommunicationPort` |
| `cobolt.dfy` | `Cobolt` | `CoboltDebugSerial` |
| `serial_port.dfy` | `SerialPort` | `SerialPort` around the Cobolt simulator |
| `socket_port.dfy` | `SocketPort` | `SocketPort`, and the echoing peer of its tests |
| `transactions.dfy` | `Transactions` | `readString`, `writeString` and the three exchanges over any of the three ports |
| `ocean_endpoints.dfy` | `OceanEndpoints` | endpoint partition and assignment |
| `ocean_status.dfy` | `OceanStatus` | the two status layouts and the acquisition bits |
| `ocean_device.dfy` | `OceanDevice` | endpoint reads, `sendCommand`, integration time, `getStatus`, the polls, `getParameter` |
| `ocean_calibration.dfy` | `OceanCalibration` | `getCalibration`, `initializeDevice`, construction |
| `ocean_spectrum.dfy` | `OceanSpectrum` | USB2000 and USB4000 `getSpectrumData` |
| `ocean_discovery.dfy` | `OceanDiscovery` | `connectedUSBDevices`, `matchUniqueUSBDevice` |
| `device_manager.dfy` | `DeviceManager` | `DeviceManager` |

**Behaviour of the code that the model keeps as written**
- `writeStringExpectMatchingString` raises `CommunicationReadAlternateMatch` when the alternate
  pattern is given and does NOT match the reply (hardwarelibrary/communicationport.py:77-81).
  When the alternate does match, it raises `CommunicationReadNoMatch`.
- `sendCommand` catches and prints every write error (oceaninsight.py:478-481), so it never
  raises. A missing command endpoint therefore only means that nothing is logged.
- Flushing a serial port around the Cobolt simulator never discards its queued replies:
  - The Cobolt simulator's `flush` is empty (CoboltDebugSerial.py:31-32).
  - `SerialPort.flush` on an open simulator calls `reset_input_buffer`, which the simulator
    lacks, so it raises `AttributeError`.
- The base constructor assigns endpoints when `len(inputs) >= 2 or len(outputs) > 0`
  (oceaninsight.py:219). The comment there describes `and`. With `or`, an interface with an
  output but fewer than two inputs, or with two inputs but no output, raises `IndexError`.
  `OceanEndpoints.DefaultGuardDiscrepancy` characterises exactly those interfaces.
- The USB4000 reads its confirmation byte from the endpoint of the last packet
  (oceaninsight.py:892-900). With `packetCount == 0` that variable is unbound, and the model
  returns `UnboundLocalError`.
- `matchUniqueUSBDevice` formats its last message with `{1}` from a single argument
  (oceaninsight.py:720). When other Ocean Insight devices are connected it therefore raises
  `IndexError` instead of `NoSpectrometerConnected`.

## Model

| member | source | states |
|---|---|---|
| Fifo.PopFront | CoboltDebugSerial.py:34-43 | popping `length` bytes returns the oldest `length` bytes in order and keeps the rest; when fewer are buffered the read raises CommunicationReadTimeout with the buffer already emptied |
| DebugEcho.New | hardwarelibrary/communicationport.py:107-111 | a new echo port is closed and holds no bytes |
| DebugEcho.Open | hardwarelibrary/communicationport.py:117-122 | open succeeds exactly when the port is closed; a second open raises a bare Exception and changes nothing; afterwards the port is open with the same bytes |
| DebugEcho.Close | hardwarelibrary/communicationport.py:124-126 | close always leaves the port closed and keeps the buffered bytes |
| DebugEcho.Flush | hardwarelibrary/communicationport.py:131-132 | flush leaves no byte available and keeps the open state |
| DebugEcho.ReadData | hardwarelibrary/communicationport.py:134-145 | succeeds exactly when `length` bytes are available, returns the oldest `length` and removes exactly those; otherwise CommunicationReadTimeout with nothing left buffered |
| DebugEcho.WriteData | hardwarelibrary/communicationport.py:147-151 | appends the data to the end of the buffer, returns its length, and bytesAvailable grows by that count |
| DebugEcho.WriteThenReadAll | hardwarelibrary/communicationport.py:128-151 | first in, first out: after a write, reading everything returns the older bytes then the new ones and empties the port |
| DebugEcho.OpenCloseCycle | hardwarelibrary/communicationport.py:117-126 | a new port opens once, refuses a second open, and opens again after a close |
| SerialPort.Wrap | hardwarelibrary/communicationport.py:162-176 | wrapping an existing device closes it if open and otherwise leaves it as it was |
| SerialPort.Open | hardwarelibrary/communicationport.py:185-189 | opening succeeds exactly when the device was closed; afterwards it is open |
| SerialPort.Close | hardwarelibrary/communicationport.py:191-192 | after close the port is not open |
| SerialPort.Flush | hardwarelibrary/communicationport.py:197-200 | a closed port's flush does nothing; an open one raises AttributeError because the simulator has no buffer reset |
| SerialPort.CheckRead | hardwarelibrary/communicationport.py:204-206 | the read succeeds exactly when exactly `length` bytes came back, and returns them; otherwise CommunicationReadTimeout |
| SerialPort.CheckWrite | hardwarelibrary/communicationport.py:212-214 | the write succeeds exactly when the device accepted every byte, and returns that count; otherwise IOError |
| SerialPort.ReadData | hardwarelibrary/communicationport.py:202-208 | exactly `length` queued reply bytes, the oldest ones, or CommunicationReadTimeout when fewer are queued; nothing but the reply buffer changes |
| SerialPort.WriteData | hardwarelibrary/communicationport.py:210-217 | succeeds exactly when the data decodes as text, returning its length, and the device state is the simulator's after that write |
| Transactions.ReadData | hardwarelibrary/communicationport.py:43-44 | for every port kind, `readData` succeeds exactly when `length` bytes are unread (and a socket is connected), returns those bytes and consumes exactly them; a failure leaves nothing unread and is a timeout except on the socket |
| Transactions.WriteData | hardwarelibrary/communicationport.py:46-47 | an echoing port appends the data to its unread bytes and reports its length; the serial port succeeds exactly on ASCII data; an unconnected socket only accepts empty data |
| Transactions.ReadLine | hardwarelibrary/communicationport.py:53-57 | the byte loop succeeds exactly when an LF is unread, returns the bytes up to and including the first LF after what it already read, and leaves everything after it unread |
| Transactions.LineFromStart | hardwarelibrary/communicationport.py:53-57 | started with nothing read, the loop returns a non-empty line whose only LF is its last byte, and the unread bytes were that line followed by what stays unread |
| Transactions.ReadString | hardwarelibrary/communicationport.py:49-61 | `readString` succeeds exactly when an LF is unread and the bytes up to it are ASCII; it then returns those bytes, LF included, and leaves the rest unread; without an LF it fails and everything has been consumed |
| Transactions.ReadStringLine | hardwarelibrary/communicationport.py:49-61 | on ASCII bytes holding an LF, `readString` returns them up to the first LF and keeps the rest unread |
| Transactions.FirstLine | hardwarelibrary/communicationport.py:53-57 | the bytes up to the first LF end in that LF and hold no earlier LF |
| Transactions.WriteString | hardwarelibrary/communicationport.py:63-69 | on an echoing port the text is appended to the unread bytes; any success reports the text's length |
| Transactions.EchoReadAfterWrite | hardwarelibrary/communicationport.py:49-69 | on an echoing port, `writeString(s)` then `readString()` returns the unread bytes followed by `s`, up to the first LF, and keeps the rest unread |
| Transactions.EchoLineRoundTrip | hardwarelibrary/tests/testSocketPort.py:56-62 | on an empty echoing port, writing a text line and reading a line gives back the same line and leaves nothing unread |
| Transactions.ExpectMatchingString | hardwarelibrary/communicationport.py:71-83 | after the write and one line read: the whole reply exactly when the reply pattern matches; AlternateMatch exactly when an alternate is given and also fails; NoMatch in every other case |
| Transactions.EchoExpectMatchingString | hardwarelibrary/communicationport.py:71-83 | on an empty echoing port the reply is the command line itself, so the exchange returns it exactly when the reply pattern matches it |
| Transactions.ReadMatchingGroups | hardwarelibrary/communicationport.py:93-103 | after the write and one line read, succeeds exactly when the reply pattern matches the line read back, whose groups it returns; a failed read passes its error on, and a line that does not match is NoMatch |
| Transactions.EchoReadMatchingGroups | hardwarelibrary/communicationport.py:93-103 | on an empty echoing port the line read back is the command itself: the exchange returns the pattern's groups of the command exactly when it matches, NoMatch otherwise, and leaves nothing unread |
| Transactions.AlternateIgnored | hardwarelibrary/communicationport.py:93-103 | the alternate pattern has no influence on `writeStringReadMatchingGroups` |
| Transactions.ReadFirstMatchingGroup | hardwarelibrary/communicationport.py:85-91 | after the write and one line read, succeeds exactly when the reply pattern matches with at least one group and returns group 0; a failed read passes its error on, any other failure is NoMatch |
| Transactions.EchoReadFirstMatchingGroup | hardwarelibrary/communicationport.py:85-91 | on an empty echoing port the exchange returns group 0 of the pattern matched against the command itself, exactly when that match has a group, and NoMatch otherwise |
| SocketPort.New | hardwarelibrary/communication/socketport.py:9-13 | a new port has no socket |
| SocketPort.Open | hardwarelibrary/communication/socketport.py:15-18 | with a socket already present, open changes nothing; otherwise the new socket is stored and open fails exactly when the connect fails |
| SocketPort.Close | hardwarelibrary/communication/socketport.py:20-23 | after close there is no socket and the address is unchanged, so a second close does nothing |
| SocketPort.RecvAll | hardwarelibrary/communication/socketport.py:25-34 | the reference read collects at least the owed bytes, exactly that many when `recv` never over-delivers; an empty chunk is the "broken on read" RuntimeError |
| SocketPort.ReadStep | hardwarelibrary/communication/socketport.py:28-33 | a non-empty chunk strictly grows the received count and keeps the loop equal to the reference read |
| SocketPort.ReadData | hardwarelibrary/communication/socketport.py:25-34 | the chunk loop equals the reference read; it returns exactly `length` bytes when `recv` never over-delivers; every `recv` request is between 1 and min(length, 2048); `readData(0)` makes no request |
| SocketPort.RecvEchoFirst | hardwarelibrary/communication/socketport.py:29-31 | against the echoing peer, the first request takes min(owed, 2048, pending, window) bytes, and the read breaks when nothing is pending |
| SocketPort.RecvAllFromEcho | hardwarelibrary/communication/socketport.py:25-34 | from the echoing peer, reading `n` pending bytes returns the oldest `n`; asking for more than is pending breaks the connection |
| SocketPort.SendAll | hardwarelibrary/communication/socketport.py:36-44 | the reference write reports at least the data's length, exactly its length when `send` never over-reports; a zero-byte send is the "broken on write" RuntimeError |
| SocketPort.WriteData | hardwarelibrary/communication/socketport.py:36-44 | the send loop equals the reference write; every buffer handed to `send` is a non-empty suffix of the data, the first being the whole data; it returns the data's length when `send` never over-reports |
| SocketPort.SendAllToEcho | hardwarelibrary/communication/socketport.py:36-44 | everything written reaches the echoing peer in order, whatever its window |
| SocketPort.EchoRoundTrip | hardwarelibrary/tests/testSocketPort.py:36-42 | against the echoing peer, `writeData(x)` then `readData(len(x))` yields `x` |
| SocketPort.LengthPrefixedRoundTrip | hardwarelibrary/tests/testSocketPort.py:44-54 | a message framed by its 16-bit little-endian length is read back as the length, then the text, and the two reads give the frame written |
| Cobolt.Initial | CoboltDebugSerial.py:5-12 | the constructed simulator is open with nothing queued, 0.1 W, laser off, requested power 0 and autostart 1 |
| Cobolt.Open | CoboltDebugSerial.py:18-24 | open raises IOError exactly when already open; the simulator is open afterwards |
| Cobolt.Close | CoboltDebugSerial.py:26-29 | close marks it closed and changes nothing else |
| Cobolt.Flush | CoboltDebugSerial.py:31-32 | flush leaves the queued replies queued |
| Cobolt.Read | CoboltDebugSerial.py:34-43 | read pops the `length` oldest reply bytes when available; otherwise CommunicationReadTimeout with the buffer emptied; nothing else changes |
| Cobolt.SearchPowerFrom | CoboltDebugSerial.py:61 | the set-power search finds nothing exactly when the pattern `p (\d+\.?\d+)\r` matches at no position |
| Cobolt.ClassifyIsFirstMatch | CoboltDebugSerial.py:49-131 | dispatch is first match: the command chosen is that of the first pattern, in source order, found in the input; the fallback is taken exactly when none is found |
| Cobolt.SetPowerText | CoboltDebugSerial.py:61-63 | the text a set-power command captures is a number `float` accepts: at least two digits, or digits, a point, digits |
| Cobolt.ParsePower | CoboltDebugSerial.py:63 | a captured number without a point is read as the integer its digits spell |
| Cobolt.ParsePowerPoint | CoboltDebugSerial.py:63 | a captured number with a point, shifted left by its count of decimals, is the integer its digits spell without the point |
| Cobolt.RoundHalfEven | CoboltDebugSerial.py:51 | the rounding behind four-decimal formatting stays within one half of the value |
| Cobolt.Fixed4 | CoboltDebugSerial.py:51 | `{0:0.4f}` text has a point followed by exactly four characters and holds no LF |
| Cobolt.Respond | CoboltDebugSerial.py:49-125 | a recognised command's reply is one line ending in LF; no command changes the queue, the open state or the requested power |
| Cobolt.Write | CoboltDebugSerial.py:46-131 | a write succeeds exactly when it decodes, returns `len(data)`, and appends exactly one reply after those already queued; an undecodable write raises and changes nothing |
| Cobolt.LaserSwitching | CoboltDebugSerial.py:74-90 | `l1\r` in autostart mode queues the refusal and leaves the laser off or on as it was; without autostart it turns the laser on and answers OK; `l0\r` always turns it off |
| Cobolt.AutostartAndQueries | CoboltDebugSerial.py:99-117 | `@cobas 1\r` and `@cobas 0\r` set autostart and answer OK; `@cobas?\r` and `l?\r` report autostart and the laser state without changing anything |
| Cobolt.PowerCommands | CoboltDebugSerial.py:55-66 | a set-power command captures a number text, stores the power that text parses to, changes nothing else and answers OK; `p?` reports the requested power in four-decimal text |
| Cobolt.UnrecognizedInput | CoboltDebugSerial.py:127-131 | unmatched input queues "Syntax error: ", the input and LF, and changes no state |
| Cobolt.RequestedPowerStaysZero | CoboltDebugSerial.py:10 | from the initial state, after any sequence of writes, the requested power is still 0 |
| Cobolt.Fixed4Example | CoboltDebugSerial.py:51 | 0.05 W is printed as "0.0500" |
| Cobolt.SetPowerExample | CoboltDebugSerial.py:61 | "p 0.05\r" is understood as a set-power command capturing "0.05" |
| Cobolt.PowerMatchExample | CoboltDebugSerial.py:61 | the set-power pattern matches "p 0.05\r" at its start and captures "0.05" |
| Cobolt.ParsePowerExample | CoboltDebugSerial.py:63 | the captured "0.05" is read as 0.05 W |
| Cobolt.ActualPowerQueryReply | CoboltDebugSerial.py:49-53 | "pa?\r" queues the current power in four-decimal text followed by CR LF |
| Cobolt.SetPowerOnFreshLaser | CoboltDebugSerial.py:61-66 | "p 0.05\r" written to a fresh simulator sets 0.05 W and queues "OK\r\n" |
| OceanEndpoints.Partition | hardwarelibrary/spectrometers/oceaninsight.py:202-211 | endpoints with the direction bit set are exactly the inputs, the others exactly the outputs |
| OceanEndpoints.PartitionIsExact | hardwarelibrary/spectrometers/oceaninsight.py:202-211 | the two lists together hold every endpoint exactly as often as the interface does |
| OceanEndpoints.PartitionKeepsOrder | hardwarelibrary/spectrometers/oceaninsight.py:204-211 | the split keeps interface order within each list |
| OceanEndpoints.DirectionExamples | hardwarelibrary/spectrometers/oceaninsight.py:208 | 0x81 and 0x82 are inputs; 0x01 and 0x02 are outputs |
| OceanEndpoints.DefaultAssignment | hardwarelibrary/spectrometers/oceaninsight.py:213-225 | command out, main in and secondary in are outputs[0], inputs[0] and inputs[1] when both exist; all stay None when there are fewer than two inputs and no output; every other interface raises IndexError |
| OceanEndpoints.DefaultGuardDiscrepancy | hardwarelibrary/spectrometers/oceaninsight.py:219-225 | the `or` guard raises exactly on the interfaces where it disagrees with the `and` the comment describes |
| OceanEndpoints.Usb2000Assignment | hardwarelibrary/spectrometers/oceaninsight.py:766-769 | the USB2000 reads parameters from the secondary input and status from the main input |
| OceanEndpoints.Usb4000Assignment | hardwarelibrary/spectrometers/oceaninsight.py:858-864 | the USB4000 needs three inputs and an output: the third input serves main, parameter and status replies, the second is secondary |
| OceanStatus.Unpack2000 | hardwarelibrary/spectrometers/oceaninsight.py:734 | `>hh?B???xxxxxxx` decodes exactly the 16-byte replies; the request and ready flags are bytes 6 and 8 being nonzero |
| OceanStatus.Pack2000 | hardwarelibrary/spectrometers/oceaninsight.py:734 | packing gives 16 bytes whose seven pad bytes are zero |
| OceanStatus.Usb2000RoundTrip | hardwarelibrary/spectrometers/oceaninsight.py:734 | every record in range survives packing then unpacking |
| OceanStatus.Usb2000Canonical | hardwarelibrary/spectrometers/oceaninsight.py:734 | a 16-byte reply with 0/1 flag bytes and zero padding is the packing of what it decodes to |
| OceanStatus.Unpack4000 | hardwarelibrary/spectrometers/oceaninsight.py:818 | `<hL?BBB?Bxx?x` decodes exactly the 16-byte replies; acquisitionStatus is byte 8 and packetCount byte 9 |
| OceanStatus.Pack4000 | hardwarelibrary/spectrometers/oceaninsight.py:818 | packing gives 16 bytes with zero pad bytes 12, 13 and 15 |
| OceanStatus.Usb4000RoundTrip | hardwarelibrary/spectrometers/oceaninsight.py:818 | every record in range survives packing then unpacking |
| OceanStatus.Usb4000Canonical | hardwarelibrary/spectrometers/oceaninsight.py:818 | a 16-byte reply with 0/1 flag bytes and zero padding is the packing of what it decodes to |
| OceanStatus.AcquisitionBits | hardwarelibrary/spectrometers/oceaninsight.py:933-961 | `& 2` and `& 4` test bits 1 and 2 of acquisitionStatus |
| OceanStatus.AcquisitionStates | hardwarelibrary/spectrometers/oceaninsight.py:924-926 | status 0 is neither requested nor ready, 2 and 3 are requested, 4 is ready |
| OceanDevice.ReadEndpoint | hardwarelibrary/spectrometers/oceaninsight.py:483-504 | a read takes the next transfer of that endpoint only, at most `size` bytes of it, and touches no other endpoint, the write log or the flush count |
| OceanDevice.Flush | hardwarelibrary/spectrometers/oceaninsight.py:252-263 | a flush is counted and changes nothing else |
| OceanDevice.SendCommand | hardwarelibrary/spectrometers/oceaninsight.py:469-481 | the command followed by the payload is written once when a command endpoint exists; nothing else changes and no error escapes |
| OceanDevice.SetIntegrationTimeBase | hardwarelibrary/spectrometers/oceaninsight.py:265-272 | writes `[0x02, lo, hi]` with lo + 256·hi = t, exactly when a command endpoint exists and t fits in 16 bits; otherwise AttributeError or the byte-range error, with nothing written |
| OceanDevice.SetIntegrationTime2000 | hardwarelibrary/spectrometers/oceaninsight.py:801-806 | 0x02 then t as two little-endian bytes, exactly when t fits `<H`; otherwise struct.error |
| OceanDevice.SetIntegrationTime4000 | hardwarelibrary/spectrometers/oceaninsight.py:912-917 | 0x02 then t·1000 microseconds as four little-endian bytes, exactly when that fits `<L`; otherwise struct.error |
| OceanDevice.IntegrationTimeRoundTrip | hardwarelibrary/spectrometers/oceaninsight.py:265-272 | for all three encodings the bytes written decode back to the time the caller asked for |
| OceanDevice.UnpackStatus | hardwarelibrary/spectrometers/oceaninsight.py:413-418 | a status decodes exactly from 16 bytes, in the layout of the spectrometer's model |
| OceanDevice.GetStatus | hardwarelibrary/spectrometers/oceaninsight.py:394-419 | sends 0xFE, then succeeds exactly when the status endpoint delivers a 16-byte transfer; success records the status in lastStatus; failure is a TypeError and keeps lastStatus |
| OceanDevice.IsSpectrumRequestedBase | hardwarelibrary/spectrometers/oceaninsight.py:370-381 | one status read; the answer is its request flag |
| OceanDevice.IsSpectrumReadyBase | hardwarelibrary/spectrometers/oceaninsight.py:383-392 | one status read; the answer is its ready flag |
| OceanDevice.RequestedPoll | hardwarelibrary/spectrometers/oceaninsight.py:933-938 | the USB4000 request poll returns True only once a USB4000 status is recorded; a failed status read escapes |
| OceanDevice.IsSpectrumRequested4000 | hardwarelibrary/spectrometers/oceaninsight.py:919-938 | the `while True` loop equals the poll definition, stops on a status with bit 1 set, and writes one status request per poll |
| OceanDevice.RequestedAfterPolls | hardwarelibrary/spectrometers/oceaninsight.py:933-938 | with `n` statuses lacking bit 1 and then one carrying it, the poll answers True after consuming exactly `n + 1` statuses |
| OceanDevice.ReadyPoll | hardwarelibrary/spectrometers/oceaninsight.py:953-961 | the USB4000 ready poll answers True only with a recorded USB4000 status whose bit 2 is set |
| OceanDevice.ReadyAfterPolls | hardwarelibrary/spectrometers/oceaninsight.py:953-961 | with `n` statuses lacking bit 2 and then one carrying it, the ready poll answers True after consuming exactly `n + 1` statuses |
| OceanDevice.ReadyExhausted | hardwarelibrary/spectrometers/oceaninsight.py:953-961 | when every pending status lacks bit 2, the ready poll consumes them all and, on the failed read that follows, answers False |
| OceanDevice.IsSpectrumReady4000 | hardwarelibrary/spectrometers/oceaninsight.py:940-961 | the loop equals the poll definition; a failed status read answers False instead of raising |
| OceanDevice.ParameterTextAsWritten | hardwarelibrary/spectrometers/oceaninsight.py:346-351 | the source's extraction cuts the whole reply at its first zero byte, header included, then drops two bytes |
| OceanDevice.ParameterText | hardwarelibrary/spectrometers/oceaninsight.py:346-351 | the text after the two header bytes, up to its first zero byte, and free of zero bytes |
| OceanDevice.SerialNumberLost | hardwarelibrary/spectrometers/oceaninsight.py:346-351 | for the reply to parameter 0 the as-written extraction is empty while the header-first one is the serial number |
| OceanDevice.ExtractionsAgree | hardwarelibrary/spectrometers/oceaninsight.py:346-351 | when neither header byte is zero the two extractions agree |
| OceanDevice.GetParameter | hardwarelibrary/spectrometers/oceaninsight.py:303-355 | sends 0x05 and the index; succeeds exactly when the index is a byte, a parameter endpoint exists, its next transfer arrives and the as-written extraction of it is ASCII; returns that extraction and consumes the transfer; every failure flushes and raises UnableToCommunicate |
| OceanDevice.GetParameterWith | hardwarelibrary/spectrometers/oceaninsight.py:303-355 | for either extraction rule: the request is logged when the index is a byte, success is as for GetParameter, the text holds no zero byte, and only the parameter queue and flush count change |
| OceanDevice.GetParameterCorrected | hardwarelibrary/spectrometers/oceaninsight.py:303-355 | with the header dropped before the cut, the query succeeds on the same conditions and returns the text after the header up to its first zero byte |
| OceanDevice.GetParameterAgrees | hardwarelibrary/spectrometers/oceaninsight.py:346-351 | when the pending reply's two header bytes are nonzero, the as-written query and the header-first one give the same result and state |
| OceanDevice.SerialNumberQueryLost | hardwarelibrary/spectrometers/oceaninsight.py:346-351 | the query for parameter 0 answered by `05 00`, the serial number and a zero returns "" as written, and the serial number with the header dropped first |
| OceanCalibration.Wavelengths | hardwarelibrary/spectrometers/oceaninsight.py:296-301 | one wavelength per pixel, trimmed trailing then leading: element `i` is the polynomial at pixel `i + leading`, and the length is max(0, pixels − trailing − leading) |
| OceanCalibration.Coefficient | hardwarelibrary/spectrometers/oceaninsight.py:291-294 | one coefficient is the parsed as-written text of the next parameter transfer, consuming it and logging one request; failures are UnableToCommunicate or ValueError |
| OceanCalibration.CalibrationTextAgrees | hardwarelibrary/spectrometers/oceaninsight.py:291-294 | a reply to coefficient 1 to 4 starts `05 01` to `05 04`, so its as-written text equals the header-first text |
| OceanCalibration.ReadCalibration | hardwarelibrary/spectrometers/oceaninsight.py:291-294 | four coefficients, stopping at the first failure |
| OceanCalibration.CalibrationReplies | hardwarelibrary/spectrometers/oceaninsight.py:291-294 | a successful read consumed the first four parameter transfers in order, and the coefficients are what they parse to |
| OceanCalibration.CalibrationLog | hardwarelibrary/spectrometers/oceaninsight.py:291-294 | a successful read logged the requests for parameters 1 to 4, in order, and flushed nothing |
| OceanCalibration.GetCalibration | hardwarelibrary/spectrometers/oceaninsight.py:287-301 | success records a status and the wavelengths; a failure keeps the previous wavelengths; the endpoints and trim counts never change |
| OceanCalibration.CalibrationWavelengths | hardwarelibrary/spectrometers/oceaninsight.py:287-301 | after success the stored wavelengths are the polynomial of the four parsed replies at every reported pixel, trimmed |
| OceanCalibration.CalibrationRequests | hardwarelibrary/spectrometers/oceaninsight.py:291-295 | a successful calibration wrote the four parameter requests and then the status request |
| OceanCalibration.CalibratedSpectrumAligned | hardwarelibrary/spectrometers/oceaninsight.py:296-301 | a raw spectrum of one sample per pixel, trimmed by the same rule, keeps one wavelength per sample: kept sample `i` is raw sample `i + leading`, measured at the wavelength of that pixel |
| OceanCalibration.InitializeWith | hardwarelibrary/spectrometers/oceaninsight.py:232-244 | initialization flushes, sends its command, then calibrates; a failed calibration becomes UnableToInitialize |
| OceanCalibration.InitializeLog | hardwarelibrary/spectrometers/oceaninsight.py:238-242 | a successful initialization wrote the command, the four parameter requests and the status request, in that order |
| OceanCalibration.InitializeCommandMismatch | hardwarelibrary/spectrometers/oceaninsight.py:240 | as written, the first command sent is the four ASCII bytes "0x01" and the byte 0x01 is never sent; the corrected version sends 0x01 first |
| OceanCalibration.Initialized | hardwarelibrary/spectrometers/oceaninsight.py:232-244 | an initialization sending the corrected byte 0x01 keeps the model and assignment, records a status and the wavelengths, and its first write is 0x01 |
| OceanCalibration.InitializedWith | hardwarelibrary/spectrometers/oceaninsight.py:232-244 | whatever command initialization sends, a success keeps the interface, assignment and trim counts, needed parameter and status endpoints, records a status and the wavelengths, and writes that command first |
| OceanCalibration.Construct | hardwarelibrary/spectrometers/oceaninsight.py:180-230 | construction partitions and assigns the endpoints (IndexError when one is missing), sets the USB4000 trim of 5 and 173 samples and none for the USB2000, and initializes as written (UnableToInitialize on failure), so its first write is `30 78 30 31` |
| OceanSpectrum.Combine | hardwarelibrary/spectrometers/oceaninsight.py:793 | `low + 256 * high` element by element, with numpy broadcasting of a one-element array; mismatched lengths raise ValueError |
| OceanSpectrum.CombineFull | hardwarelibrary/spectrometers/oceaninsight.py:793 | two full 64-byte packets combine into their 64 samples |
| OceanSpectrum.Round2000 | hardwarelibrary/spectrometers/oceaninsight.py:790-793 | a round needs two successful transfers; over two full packets it yields their combined samples |
| OceanSpectrum.Rounds2000 | hardwarelibrary/spectrometers/oceaninsight.py:789-793 | `n` successful rounds give `n` blocks and touch neither the write log nor the flush count |
| OceanSpectrum.RoundsErrorSticks | hardwarelibrary/spectrometers/oceaninsight.py:789-793 | once a round fails, later rounds are never read |
| OceanSpectrum.RoundStep | hardwarelibrary/spectrometers/oceaninsight.py:790-793 | a round over full packets combines the next two transfers and consumes exactly them |
| OceanSpectrum.CleanRounds | hardwarelibrary/spectrometers/oceaninsight.py:789-793 | over full packets, `n` rounds all succeed, consume exactly 2n transfers and give round `b` from transfers 2b and 2b+1 |
| OceanSpectrum.CleanBlocksFlat | hardwarelibrary/spectrometers/oceaninsight.py:793 | concatenating the rounds puts sample `k` of round `b` at index 64b + k |
| OceanSpectrum.Finish2000 | hardwarelibrary/spectrometers/oceaninsight.py:795-799 | succeeds exactly with a confirmation transfer, at least two samples and a 0x69 first byte; sample 0 then becomes sample 1 |
| OceanSpectrum.ConfirmedSpectrum2000 | hardwarelibrary/spectrometers/oceaninsight.py:795-799 | when the rounds succeed and the confirmation is right, the spectrum is the concatenated rounds with sample 0 replaced |
| OceanSpectrum.ReadRounds2000 | hardwarelibrary/spectrometers/oceaninsight.py:789-793 | the round loop equals the recursive definition |
| OceanSpectrum.GetSpectrumData2000 | hardwarelibrary/spectrometers/oceaninsight.py:773-799 | equals the definition; a success has sample 0 equal to sample 1; nothing is written |
| OceanSpectrum.CleanSpectrum2000 | hardwarelibrary/spectrometers/oceaninsight.py:788-799 | 64 full packets and a 0x69 confirmation give 2048 samples; every sample but the first is low[k] + 256·high[k] of its round, and the first copies the second |
| OceanSpectrum.Words | hardwarelibrary/spectrometers/oceaninsight.py:897 | a 512-byte packet is 256 little-endian 16-bit samples |
| OceanSpectrum.PacketSource | hardwarelibrary/spectrometers/oceaninsight.py:893-895 | packets 0 to 3 come from inputEndpoints[1], later ones from inputEndpoints[0]; a missing endpoint raises IndexError |
| OceanSpectrum.Packet4000 | hardwarelibrary/spectrometers/oceaninsight.py:893-898 | a successful packet holds 256 samples and touches neither the write log nor the flush count |
| OceanSpectrum.Packets4000 | hardwarelibrary/spectrometers/oceaninsight.py:892-898 | `n` successful packets of 256 samples each |
| OceanSpectrum.PacketsErrorSticks | hardwarelibrary/spectrometers/oceaninsight.py:892-898 | once a packet fails, later packets are never read |
| OceanSpectrum.Finish4000 | hardwarelibrary/spectrometers/oceaninsight.py:900-908 | a success is the raw samples trimmed; with no packet the confirmation endpoint is unbound; a desynchronized confirmation flushes before raising |
| OceanSpectrum.ReadPackets4000 | hardwarelibrary/spectrometers/oceaninsight.py:892-898 | the packet loop equals the definition; with two distinct input endpoints it succeeds exactly when every packet's transfer holds 512 bytes, returns packet `p` as the 256 samples of transfer `p` of inputEndpoints[1] for `p` < 4 and of transfer `p - 4` of inputEndpoints[0] after, and consumes exactly those transfers |
| OceanSpectrum.GetSpectrumData4000 | hardwarelibrary/spectrometers/oceaninsight.py:869-910 | equals the definition; a success needs a recorded high-speed USB4000 status with at least one packet and has 256 samples per packet less the trimmed ones; with two distinct inputs it also needs every packet full and the next transfer of the last packet's endpoint to start with 0x69, and the spectrum is the trimmed little-endian samples of those packets; nothing is written |
| OceanSpectrum.Samples4000 | hardwarelibrary/spectrometers/oceaninsight.py:892-898 | the concatenated packets: sample `256p + j` is little-endian word `j` of packet `p` |
| OceanSpectrum.PacketFrom | hardwarelibrary/spectrometers/oceaninsight.py:893-898 | a packet read from an endpoint succeeds exactly when its next transfer holds 512 bytes, returns their 256 samples, consumes that transfer and leaves every other address alone |
| OceanSpectrum.PacketStep | hardwarelibrary/spectrometers/oceaninsight.py:892-898 | after `k` packets, packet `k` succeeds exactly when its transfer is full, is its samples, and advances the queues to `k + 1` packets read |
| OceanSpectrum.PacketsFromQueues | hardwarelibrary/spectrometers/oceaninsight.py:892-898 | `n` packets succeed exactly when their `n` transfers are all full; they are then the samples of those transfers and have consumed exactly them |
| OceanSpectrum.AfterAllPackets | hardwarelibrary/spectrometers/oceaninsight.py:892-900 | after `n` full packets the endpoint of the last packet has consumed exactly up to its transfer, so the confirmation is the next one |
| OceanSpectrum.FinishFrom | hardwarelibrary/spectrometers/oceaninsight.py:900-908 | the confirmation succeeds exactly when the next transfer of the last packet's endpoint starts with 0x69 |
| OceanSpectrum.CleanSpectrum4000 | hardwarelibrary/spectrometers/oceaninsight.py:884-910 | with a high-speed status of `n` ≥ 1 packets, full transfers and a 0x69 confirmation, the spectrum is the 256n samples, sample `256p + j` being word `j` of packet `p`, trimmed |
| OceanSpectrum.Spectrum4000Read | hardwarelibrary/spectrometers/oceaninsight.py:884-910 | conversely a successful spectrum had a high-speed status, full packet transfers and a 0x69 confirmation, and is the trimmed samples of those packets |
| OceanSpectrum.Spectrum4000Length | hardwarelibrary/spectrometers/oceaninsight.py:884-910 | a USB4000 spectrum holds 256 samples per packet, less the trimmed ones |
| OceanSpectrum.TrimKeepsAlignment | hardwarelibrary/spectrometers/oceaninsight.py:905-908 | samples and wavelengths of the same length trimmed alike stay index-aligned |
| OceanSpectrum.Usb4000TrimLength | hardwarelibrary/spectrometers/oceaninsight.py:865-866 | on at least 178 samples the USB4000 trim keeps indices 5 to length − 174 |
| Seqs.Trim | hardwarelibrary/spectrometers/oceaninsight.py:905-908 | trimming keeps max(0, n − trailing − leading) elements, element `i` being the original `i + leading` |
| OceanDiscovery.Find | hardwarelibrary/spectrometers/oceaninsight.py:656-661 | exactly the Ocean Insight devices of the requested product, in bus order |
| OceanDiscovery.FindNarrows | hardwarelibrary/spectrometers/oceaninsight.py:656-661 | narrowing by product never finds a device the vendor-wide search misses |
| OceanDiscovery.SerialSearch | hardwarelibrary/spectrometers/oceaninsight.py:663-669 | the scan returns the first device carrying the serial number, nothing when none does, and a USB error when a string before it cannot be read |
| OceanDiscovery.ConnectedUSBDevices | hardwarelibrary/spectrometers/oceaninsight.py:635-671 | without a serial number, every selected device; with one, at most one device, carrying it, and none exactly when no device stops the scan |
| OceanDiscovery.MatchUniqueUSBDevice | hardwarelibrary/spectrometers/oceaninsight.py:674-722 | the chosen device is selected and carries the serial number asked for; without a serial number it is the first selected device and exists exactly when one is connected; with no match it raises IndexError exactly when other Ocean Insight devices are connected, and NoSpectrometerConnected exactly when none is |
| OceanDiscovery.SerialSelectsFirst | hardwarelibrary/spectrometers/oceaninsight.py:663-667 | with a serial number, the device returned is the first of the product carrying it, provided the strings before it can be read |
| DeviceManager.Instantiate | hardwarelibrary/devicemanager.py:42-57 | the first construction starts empty and idle; every later one returns the existing instance unchanged |
| DeviceManager.InstantiateIsSingleton | hardwarelibrary/devicemanager.py:54-57 | constructing again changes nothing |
| DeviceManager.StartMonitoring | hardwarelibrary/devicemanager.py:59-67 | start succeeds exactly when not monitoring, then monitors with the quit flag cleared; otherwise RuntimeError |
| DeviceManager.StopMonitoring | hardwarelibrary/devicemanager.py:124-132 | stop succeeds exactly when monitoring, then is idle with the quit flag set; otherwise RuntimeError |
| DeviceManager.MonitoringCycle | hardwarelibrary/devicemanager.py:59-132 | start then stop returns to an idle manager with the same devices; starting twice or stopping twice raises |
| DeviceManager.Diff | hardwarelibrary/devicemanager.py:109-114 | newly connected are exactly the current devices not known; newly disconnected are exactly the known devices not current |
| DeviceManager.DiffDisjoint | hardwarelibrary/devicemanager.py:109-114 | no device is both newly connected and newly disconnected |
| DeviceManager.DiffKeepsOrder | hardwarelibrary/devicemanager.py:111 | newly connected devices are reported in connection order |
| DeviceManager.DiffFromNothing | hardwarelibrary/devicemanager.py:109-114 | with nothing known, every connected device is new and none has gone |
| DeviceManager.DescriptorOf | hardwarelibrary/devicemanager.py:134-148 | the descriptor is (idVendor, idProduct, serial), with "" when the serial number cannot be read |
| DeviceManager.ConnectNotes | hardwarelibrary/devicemanager.py:134-140 | one connect notification per device, in order, carrying its descriptor |
| DeviceManager.DisconnectNotes | hardwarelibrary/devicemanager.py:142-148 | one disconnect notification per device, in order, carrying its descriptor |
| DeviceManager.Poll | hardwarelibrary/devicemanager.py:75-80 | a poll posts the connect notifications of the new devices, then the disconnect notifications of the vanished ones, and changes nothing else |
| DeviceManager.PollAllKeepsKnown | hardwarelibrary/devicemanager.py:73-89 | polling leaves the registry, the monitoring flags and the known list alone |
| DeviceManager.PollsReportEverything | hardwarelibrary/devicemanager.py:51-52 | since the known list starts empty and is never assigned, every poll reports every connected device as new and none as gone |
| DeviceManager.AddDevice | hardwarelibrary/devicemanager.py:150-154 | inserts into the set (a duplicate is a no-op) between willAddDevice and didAddDevice |
| DeviceManager.RemoveDevice | hardwarelibrary/devicemanager.py:156-160 | removes the device between willRemoveDevice and didRemoveDevice; an absent device raises KeyError after willRemoveDevice and posts nothing more |
| DeviceManager.AddThenRemove | hardwarelibrary/devicemanager.py:150-160 | adding an unregistered device then removing it restores the registry; adding twice equals adding once |
| DeviceManager.MatchPhysicalDevicesOfType | hardwarelibrary/devicemanager.py:162-174 | returns each registered device of the requested class exactly once, restricted to serial numbers the pattern matches at their start when one is given, and nothing else |
| Bytes.U16LERoundTrip | hardwarelibrary/spectrometers/oceaninsight.py:805-806 | `pack('<H', n)` decodes back to `n` |
| Bytes.U32LERoundTrip | hardwarelibrary/spectrometers/oceaninsight.py:916-917 | `pack('<L', n)` decodes back to `n` |
| Bytes.NatTextRoundTrip | CoboltDebugSerial.py:70 | the decimal text of a number reads back as that number |

## Left out

- Locks (`portLock`, `transactionLock`, the DeviceManager `RLock`): concurrency. The model is sequential.
- The monitoring thread, its sleep loop, clock and `join`: only one poll of the loop and the trace it posts are modelled. The status, didStartMonitoring and didStopMonitoring notifications are not in the trace.
- Python's `re` engine: the transaction patterns and the DeviceManager serial match are function parameters. Only the Cobolt patterns are written out.
- Real transports:
  - pyserial's path-based open at 19200 baud;
  - `SerialPort.bytesAvailable` (`in_waiting`);
  - socket creation and connect, reduced to a parameter;
  - pyusb reads and writes, `usb.core.find` and `get_string`, reduced to queues and a device list;
  - libusb backend validation.
- `SerialPort.Open`: only the branch around an existing device is modelled. The path-based branch builds a pyserial object, which is foreign.
- Busy polls with wall-clock deadlines: `requestSpectrum`, `getSpectrum` and its re-request. The `initializeDevice` sleep and the DebugEcho random delay are timing.
- `OceanDevice.Flush`: `flushEndpoints` only counts the call. Draining the endpoints is foreign I/O whose timeouts are swallowed.
- The USB4000 polls run over a finite sequence of status transfers. A device that answers without the awaited bit forever, where the source's `while True` never ends, is not modelled.
- Floating point:
  - powers, coefficients and wavelengths are exact reals;
  - `{0:0.4f}` is rounding half to even of the exact value;
  - `float()` on the calibration coefficients is a parameter (`OceanCalibration.ParseReal`); the Cobolt set-power text is parsed exactly by `Cobolt.ParsePower`;
  - `getIntegrationTime`'s division is not modelled;
  - the DebugSpectro random spectra are not modelled.
- numpy: arrays are sequences of unbounded integers, so no dtype promotion or overflow.
- UTF-8: any byte of 0x80 or more counts as a decode error, including valid multi-byte text.
- UI and command-line code: CSV export, SpectraViewer, `display`, `showHelp`, `supportedClassNames`, `any`.
- `powermeterdevice.py`, `socketlistener.py` and `1-simple/cobolt.py` are not part of this model.
- `shutdownDevice` does nothing in the source and has no model.
- `getSerialNumber` is `getParameter(0)`. `OceanDevice.GetParameter` and `OceanDevice.SerialNumberQueryLost` cover it, and so does the finding below.
- `DeviceManager.matchUSBDeviceWithPhysicalDevice` always builds a debug device and has no model.
- `SerialPort` is modelled only around the Cobolt simulator. A real pyserial device is foreign.
- The endpoint argument on the echo port: `DebugEchoCommunicationPort.readData` and `writeData` take none (hardwarelibrary/communicationport.py:134, 147). `readString` and `writeString` pass one (lines 54 and 67), so in Python those calls raise `TypeError` on the echo port. The model departs from this: every port takes an endpoint argument and the echo port ignores it, so the text layer can be stated over all three ports.
- OceanDevice.ReadEndpoint: a queued transfer longer than the requested size is cut to that size. A real pyusb read into a smaller buffer fails with an overflow error, which the model does not reproduce; it takes devices never to send more than was asked.
- Cobolt.Fixed4: the contract states the shape of the text (a point, four decimals, no LF), not its digits. `Cobolt.Fixed4Example` pins one value.
- Cobolt.RoundHalfEven: the contract bounds the error by one half. It does not state the tie rule.
- OceanDevice.RequestedPoll: the contract only says what a True answer implies. `OceanDevice.RequestedAfterPolls` states how many statuses are consumed.
- OceanCalibration.GetCalibration: the contract does not give the wavelength values. `OceanCalibration.CalibrationWavelengths` states them.
- OceanSpectrum.ReadPackets4000, OceanSpectrum.GetSpectrumData4000: the packet contents are stated only when the first two input endpoints have different addresses, as they do on the device. When they share an address, only the loop's equality with its definition and the length are stated.

## Findings

| source | as written | input that shows it | evidently intended | confidence | as-written member | corrected member |
|---|---|---|---|---|---|---|
| hardwarelibrary/spectrometers/oceaninsight.py:346-351 | the reply is cut at its first zero byte before the two header bytes are dropped, so a zero in the header cuts away the whole text | the reply to parameter 0, `05 00 31 32 33 00 …`: the cut happens at index 1 and `[2:]` of one byte is empty, so `getSerialNumber()` returns "" | drop the two header bytes, then cut at the first zero byte, giving "123" | not executed | OceanDevice.SerialNumberLost | OceanDevice.ParameterText |
| hardwarelibrary/spectrometers/oceaninsight.py:240 | `sendCommand(b'0x01')` sends the four ASCII bytes `30 78 30 31` | any initialization: the first write on the command endpoint is `30 78 30 31`, and the byte 0x01 is never sent | the one-byte initialize command 0x01 | not executed | OceanCalibration.InitializeCommandMismatch | OceanCalibration.InitializeDevice |

The driver model keeps both behaviours as written:
- `OceanDevice.GetParameter` extracts text with `ParameterTextAsWritten`.
- `OceanCalibration.Construct` initializes through `InitializeDeviceAsWritten`, so its first write is `30 78 30 31`.

The corrected definitions are proved alongside them:
- `OceanDevice.GetParameterCorrected` uses `ParameterText`, and `OceanDevice.SerialNumberQueryLost` shows the two queries part on the serial number.
- `OceanCalibration.InitializeDevice` sends 0x01, and `OceanCalibration.Initialized` proves that byte is written first.

The calibration is unaffected by the first finding:
- `OceanDevice.GetParameterAgrees` shows the two queries agree whenever the header bytes are nonzero.
- `OceanCalibration.CalibrationTextAgrees` shows this holds for the replies to coefficients 1 to 4.
