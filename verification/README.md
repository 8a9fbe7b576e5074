# A Dafny model of libmodbus

libmodbus carries requests of the Modbus protocol between a client and a
server over a serial line (RTU) or a TCP connection. The server holds four
tables of coils, discrete inputs, holding registers and input registers. This
project models the protocol engine from the client functions to the tables and
back, with both backends, and two small stateful programs of the repository:
the substation meter and the many-client server loop.

`dafny verify dfyconfig.toml` checks the whole project.

## How it is built

| module | what it holds |
|---|---|
| `Bytes`, `Bits` | octets, registers, bit packing, and the loops over them |
| `Checksum`, `Detection` | the two-table CRC, the polynomial division it computes, and what it detects |
| `Device` | the abstract device: four address-indexed tables and what each request does to them |
| `Protocol` | frame layout, the length functions, and the decisions taken on a received frame |
| `Transport` | a link that splits, delays or loses octets, the receive machine, sending, one node's state |
| `Server` | the four shifted tables as arrays and `modbus_reply` |
| `RoundTrip`, `Verdict`, `EndToEnd` | printing against parsing, what the client accepts, refinement of the abstract device |
| `Client`, `Calls` | the client functions against any peer, and what a caller gets from the octets that came |
| `Layout` | frames, responses, limits and the end of a frame in octets and plain numbers |
| `Serving`, `Sessions` | a server's turn; runs of a client and a server over one connection |
| `Stream`, `Transactions` | streams of frames and their lengths; transaction ids |
| `Bus` | a serial line with many slaves, as a state machine over its steps |
| `SerialWindows`, `Meter`, `SelectServer` | the Windows receive buffer, the incremental totals, the select loop |

Code that changes buffers, tables or fields is written as methods over arrays
and classes, each with a contract in terms of functions on sequences and maps.
What the source promises is then proved about those functions. C ints stored
in octets are truncated explicitly (`Hi`, `Lo`, `% 0x100`); the CRC works on
bit-vectors; sends, receives, timeouts, `ReadFile` and `accept` are
nondeterministic. `Link.incoming` is everything the other side will ever
deliver, so a contract that holds for all its values holds for all peers.

The chain from one end to the other is: a client method prints a frame
(`Client.Exchange` and the builders), the receive machine cuts it out of the
stream (`Transport.ReceiveMsg`, `Server.ReceiveThenReply`), `Server.Reply`
does `Device.Exec` to the tables and prints the answer, the client's machine
cuts that out and judges it (`Verdict`), and decodes it. `EndToEnd.CallCorrect`
puts the pieces together on whole frames; `Sessions.RunIsAbstract` does so for
runs of the methods' contracts over a connection;
`Serving.ServeQuery` and the three `Client` lemmas named `OverWire` state the same
of the methods. `Layout` and `Calls` say once more, without the functions that
print, parse and execute, what all of this comes to in octets.

## Where the code is not what one might expect

Each of these is a lemma with the exact condition or a concrete input.

- A bit cell holding something other than 0 or 1 is read back as other cells
  (`Bits.BitsRoundTrip`, `Bits.SpillExample`). No received frame produces such a
  cell (`Server.FramesKeepTables`).
- A mask write is confirmed by any complete addressed frame with its function
  code; address and masks are not compared (`Verdict.WriteVerdict`).
- A slave id asked of slave 0 over a serial line is accepted from a frame whose
  CRC is wrong (`Client.SlaveIdChecked`).
- For function codes from 0x80 on the exception code wraps, and the waiting
  client may take the exception for a normal answer
  (`RoundTrip.AnswerSelfDelimiting`).
- `modbus_read_bits` returns success with `dest` untouched when `send` accepts
  0 octets (`Client.ReadBits`).
- The client functions do not refuse an empty quantity; the server does
  (`EndToEnd.CallRefused`).
- A slave that still waits for the answer to a request nobody answers takes the
  next request for it. Which requests leave it on a frame boundary, and that the
  request is lost to it, is `Bus.ImpatientMaster`.
- A slave that refuses a quantity sleeps its response timeout before it answers,
  and another slave waits just that long for the answer. If that wait runs out
  first, the refusal is taken for a request (`Bus.HastySlave`, `Bus.HastyRun`).
- Nothing on a serial line carries an id, so a master that gave up may take a
  late answer for that of its next request (`Transactions.LateAnswer`,
  `Transactions.LateReadExample`).
- A refused quantity flushes the slave's input even when it came by broadcast,
  and the master need not wait then: what follows may be lost in whole or in
  part (`Bus.GuardExact`, `Bus.LostRequest`).
- The order of checks in function 0x05 is address, then value, not the order of
  the state diagram in section 6.5 of MODBUS Application Protocol V1.1b
  (`Server.ReplyWriteBit`).
- The Windows receive buffer is not shifted by a short read
  (`SerialWindows.ShortReads`).
- A register named twice at start makes the meter's totals wrong
  (`Meter.InitLineExact`, `Meter.NamedTwiceExample`). So does a device register at
  cell 10 or 26 that differs from the total published there
  (`Meter.OneTotalCell`, `Meter.CheckLineExact`, `Meter.TotalCellExample`).
- The meter's range check lets address 30 and negative ones through
  (`Meter.AdmittedInBounds`).

Layouts, limits and codes follow sections 4.1, 6.1 to 6.6, 6.11 to 6.13, 6.16,
6.17 and 7 of MODBUS Application Protocol V1.1b, sections 2.5.1.2 and 6.2.2 of
MODBUS over Serial Line V1.02 and section 3.1.3 of the MODBUS Messaging on
TCP/IP Implementation Guide V1.0b, as the code implements them. The
identification string carries version 3.1.10 (configure.ac, lines 14 to 16).

## Model

| member | source | states |
|---|---|---|
| `Bytes.HiIsDivision` | src/modbus-tcp.c:113-114 | Storing w >> 8 in an octet keeps floor(w / 256) mod 256, for negative ints too. |
| `Bytes.WordsRoundTrip` | src/modbus.c:1308-1321 | Registers written high octet first are the registers read back, whatever octets follow them. |
| `Bytes.WordsOctets` | src/modbus.c:886-892 | Register k is in octets 2k and 2k + 1 of the block, high octet first. |
| `Bytes.AppendRegisters` | src/modbus.c:886-892 | The loop appends exactly the big-endian image of the addressed registers to what the buffer held. |
| `Bytes.ReadRegisters` | src/modbus.c:1008-1016 | The loop puts the registers of the octet block into the addressed cells and changes no other cell. |
| `Bits.ResponseIoStatus` | src/modbus.c:718-741 | The server's packing loop: the octets appended are the cells packed eight to an octet, first cell in the low bit, ceil(nb/8) of them. |
| `Bits.PackRequestBits` | src/modbus.c:1458-1478 | The client's packing loop gives the same octets for the cells with every non-zero value taken as 1. |
| `Bits.UnpackResponseBits` | src/modbus.c:1207-1217 | The client's unpacking loop writes exactly the first nb bits of the data octets to the first nb cells. |
| `Bits.SetBitsFromBytes` | src/modbus-data.c:86-102 | Cells idx to idx+nb become the first nb bits of the octets; no other cell changes. |
| `Bits.SetBitsFromByte` | src/modbus-data.c:77-84 | Eight cells become the eight bits of the octet, low bit first. |
| `Bits.GetByteFromBits` | src/modbus-data.c:104-122 | At most eight cells combined into one octet; truncating at each step or at the end is the same. Asked for more than eight, a build without NDEBUG stops and one with it takes eight. |
| `Bits.PackBitsAt` | src/modbus.c:718-741 | Bit k%8 of packed octet k/8 is cell k. |
| `Bits.PaddingIsZero` | src/modbus.c:718-741 | The bits of the last octet past the last cell are 0. |
| `Bits.BitsRoundTrip` | src/modbus.c:1199-1217 | Unpacking a server's packed bits gives the cells back, for every count and whatever octets follow, if and only if every cell holds 0 or 1. |
| `Bits.SpillExample` | src/modbus.c:725-734 | A cell holding 2 is read back as its neighbour: the condition above is needed. |
| `Bits.PackUndoesUnpack` | src/modbus-data.c:86-122 | Packing undoes unpacking for all octet sequences. |
| `Checksum.TablesAreDivision` | src/modbus-rtu.c:29-72 | Every pair of table entries is the remainder of eight division steps by 0xA001 of its index. |
| `Checksum.TableTurn` | src/modbus-rtu.c:121-127 | One turn of the two-table loop equals eight steps of the bit-by-bit division with the octet subtracted first. |
| `Checksum.Crc16` | src/modbus-rtu.c:116-130 | The table loop computes, for every buffer and length, the bit-by-bit reflected division; where the register starts is fixed by the three rows below. |
| `Detection.KnownChecksums` | src/modbus-rtu.c:116-130 | The register starts at 0xFFFF, and the message 02 07 of the guide's worked example has the checksum 0x1241. |
| `Detection.KnownTrailer` | src/modbus-rtu.c:139-149 | The request 01 03 00 00 00 0A is followed by C5 CD. |
| `Detection.LeadingOctets` | src/modbus-rtu.c:116-130 | For all messages: octets put before one leave its checksum alone if and only if their own checksum is 0xFFFF. |
| `Detection.LeadingZero` | src/modbus-rtu.c:116-130 | A zero octet put before any message changes its checksum. |
| `Checksum.TrailerAccepted` | src/modbus-rtu.c:139-149 | A message followed by its CRC, low octet first, is accepted. |
| `Checksum.AcceptedIffNoResidue` | src/modbus-rtu.c:365-372 | A frame is accepted if and only if the CRC of the whole frame, trailer included, is 0. |
| `Detection.StepBijective` | src/modbus-rtu.c:121-127 | For each octet the CRC step is one-to-one and onto on the 16-bit states. |
| `Detection.CrcFromInjective` | src/modbus-rtu.c:121-127 | Two states that a message takes to the same state are equal. |
| `Detection.TwoOctetsInjective` | src/modbus-rtu.c:121-127 | From one state, two different pairs of octets never lead to the same state. |
| `Detection.BurstDetected` | src/modbus-rtu.c:349-385 | A frame that differs from an accepted one of the same length only within two adjacent octets, the CRC field included, is not accepted. |
| `Detection.CrcParity` | src/modbus-rtu.c:116-130 | The parity of the CRC is the parity of the message's bits, for every message. |
| `Detection.OddFlipsDetected` | src/modbus-rtu.c:349-385 | A frame with an odd number of flipped bits is not accepted. |
| `Device.ExecAtomic` | src/modbus.c:811-1134 | A request either answers with an exception and changes nothing, or changes only the cells it addresses; input tables, table extents and the 0/1 range of bit cells are kept. |
| `Server.FramesKeepTables` | src/modbus.c:783-1144 | Whatever frames are received, with whatever function codes, serving them one after another keeps bit cells 0 or 1, the input tables and the table extents. |
| `Server.FreshRunKeepsTables` | src/modbus.c:1936-2017 | The same from the tables of a new mapping. |
| `Server.DecodedFlags` | src/modbus.c:946-982 | The bit values of a received request are 0 or 1. |
| `Device.WriteThenRead` | src/modbus.c:983-1021 | Registers written are the registers read back. |
| `Device.WriteAndReadIsBoth` | src/modbus.c:1068-1124 | Function 0x17 has the effect and the answer of the write followed by the read. |
| `Device.SelectBit` | src/modbus.c:1045-1066 | Selecting by a mask, for operands of any width: each bit comes from the first operand where the mask has a 1 and from the second elsewhere. |
| `Device.MaskedBits` | src/modbus.c:1060-1063 | Of the two masks the AND mask selects: bit k of the masked register is the old bit where it has a 1 and the OR mask's bit elsewhere. |
| `Protocol.ExpectFrame` | src/modbus.c:273-344 | A stream that starts with a self-delimiting frame is cut after exactly that frame. |
| `Protocol.ExpectComplete` | src/modbus.c:487-507 | Whatever the machine returns as complete is self-delimiting, at most the backend's maximum, and is cut the same without the octets after it. |
| `Protocol.IntegrityOfFrame` | src/modbus-rtu.c:349-385 | A printed frame passes the integrity check; on a serial line it yields 0 exactly for another slave's unicast frame. |
| `Transport.ReceiveMsg` | src/modbus.c:358-528 | For every stream, chunking and failure: at most the maximum ADU is consumed and stored, contiguously; a result other than a loss is the one the stream's first octets call for, with exactly that frame consumed; a loss-free link reports a loss only on an incomplete frame. Terminates. |
| `Transport.OneRead` | src/modbus.c:415-519 | One turn of the loop keeps the machine's invariant and decreases (steps left, octets left) lexicographically. |
| `Transport.NextStep` | src/modbus.c:487-507 | The switch, with its fall-through when there is no meta information, asks for exactly the octets the frame still lacks or reports too many. |
| `Transport.SendMsg` | src/modbus.c:164-221 | Everything printed goes out and its length is returned, or a proper part of it and EMBBADDATA, or nothing and 0 or the error of send. |
| `Transport.FinishIsFrame` | src/modbus-tcp.c:161-170 | Completing a message with checksum or MBAP length gives the frame of its unit. |
| `Transport.Context.Receive` | src/modbus-rtu.c:291-312 | With the flag set the next frame is read as an answer and dropped and the flag is cleared whatever happened; otherwise a request is read and the flag is set exactly when the result is 0. |
| `Server.Mapping.constructor` | src/modbus.c:1936-2017 | The tables cover exactly the addresses asked for and hold zeros. |
| `Server.BuildResponseBasis` | src/modbus-tcp.c:134-154 | The header repeats transaction id and unit and is followed by the function code; the serial one is unit and function code. |
| `Server.ResponseException` | src/modbus.c:744-775 | The message built is the two-octet exception answer to the request. |
| `Server.ReplyReadBits` | src/modbus.c:812-849 | Functions 0x01 and 0x02 answer as the abstract device does: value before address error, else the cells, packed. |
| `Server.ReplyReadRegisters` | src/modbus.c:850-894 | Functions 0x03 and 0x04, likewise. |
| `Server.ReplyWriteBit` | src/modbus.c:895-925 | Function 0x05: address before value error; an echo and the one coil set or cleared otherwise. |
| `Server.ReplyWriteRegister` | src/modbus.c:926-945 | Function 0x06: address error, or an echo and the one register written. |
| `Server.ReplyWriteBits` | src/modbus.c:946-982 | Function 0x0F: exactly the addressed coils become the request's bits. |
| `Server.ReplyWriteRegisters` | src/modbus.c:983-1021 | Function 0x10: exactly the addressed registers become the request's values. |
| `Server.ReplySlaveId` | src/modbus.c:1022-1037 | Function 0x11: identification, with the byte count filled in last. |
| `Server.ReplyMaskWrite` | src/modbus.c:1045-1067 | Function 0x16: the masked value is stored and the request echoed. |
| `Server.MaskSelects` | src/modbus.c:1060-1063 | (data & and) \| (or & ~and) on 16-bit operands selects bit by bit. |
| `Server.ReplyWriteAndRead` | src/modbus.c:1068-1124 | Function 0x17: the answer is read from the registers after the write. |
| `Server.ReplyUnknown` | src/modbus.c:1126-1134 | Any other function: illegal function, nothing changed. |
| `Server.SilentOutcome` | src/modbus.c:1038-1044 | Function 0x07, and no other, gets no answer and changes nothing. |
| `Server.Reply` | src/modbus.c:783-1144 | For every received frame the tables by address become what the abstract device makes of them, and exactly the answer to the outcome is sent, or none for a serial broadcast. The input is flushed once with the refusals that call for it and not otherwise. Everything is a function of the received octets, although the buffer is read past a short frame. |
| `Server.SameFrameSameReply` | src/modbus.c:801-808 | Two calls on the same frame and tables end with the same tables, octets sent and result, whatever else the buffers hold. |
| `Server.ReceiveThenReply` | src/modbus.c:531-539 | A positive result of modbus_receive is the length of a frame modbus_reply accepts; on a serial line it is addressed to this slave or to all and its CRC is right. |
| `RoundTrip.RequestDecodes` | src/modbus.c:811-1124 | The server reads back every request a client function can print, bits normalised. |
| `RoundTrip.AnswerSelfDelimiting` | src/modbus.c:273-344 | The answer to any request but 0x07 is cut exactly by a waiting client if and only if its exception code does not wrap into that of a normal answer; it never exceeds 253 octets. |
| `RoundTrip.AnswerLength` | src/modbus.c:128-162 | A normal answer has the length the client computes from its request, where it computes one; an exception has header, two octets and checksum. |
| `Verdict.PreCheckIsAddressed` | src/modbus-tcp.c:196-225 | The pre-check passes if and only if the frame carries the request's transaction id and protocol 0, or on a serial line its slave (any, for slave 0). |
| `Verdict.ReadVerdict` | src/modbus.c:559-716 | A read is confirmed if and only if the frame came complete, is addressed to the request, has its function code and exactly the octets asked for. |
| `Verdict.WriteVerdict` | src/modbus.c:644-674 | A write is confirmed if and only if the frame came complete, is addressed to the request and repeats its first five octets; for the mask write the function code alone is compared. |
| `Verdict.SlaveIdVerdict` | src/modbus.c:655-658 | A slave id is accepted from any addressed frame with function 0x11; neither its length nor whether it came complete is judged. |
| `Verdict.ExceptionVerdict` | src/modbus.c:581-600 | A Modbus exception is reported if and only if a complete addressed frame carries that code, below 12, for the function asked. |
| `Verdict.AnswerPasses` | src/modbus-tcp.c:156-159 | Every answer of the server carries the request's transaction id and passes the pre-check. |
| `Verdict.AnswerVerdict` | src/modbus.c:559-716 | The client's verdict on the server's answer to any plain request is the outcome of the request. |
| `EndToEnd.RequestReceived` | src/modbus.c:531-539 | A printed request is received whole, passes the check and stands for the operation intended. |
| `EndToEnd.AnswerReceived` | src/modbus.c:358-528 | The answer to a plain request is cut exactly by the machine waiting for it, whatever follows, and passes its check. |
| `EndToEnd.DecodedAnswer` | src/modbus.c:1199-1217 | Decoding the server's answer gives the outcome of the abstract operation. |
| `EndToEnd.CallCorrect` | src/modbus.c:1181-1660 | One call over either backend: the server does the intended operation to its tables and the client returns what the abstract operation returns. |
| `EndToEnd.CallRefused` | src/modbus.c:811-1124 | A call fails if and only if the quantity is empty (illegal value) or an address is not a cell (illegal address), and then the tables are unchanged. |
| `Sessions.TurnCorrect` | src/modbus.c:1181-1705 | One call of a run over a loss-free connection: the request is received and answered, the answer received and judged, and tables, return value and dest are those of the abstract operation. |
| `Sessions.RunIsAbstract` | src/modbus.c:1181-1705 | Every run of client calls and server turns, as the contracts of the client functions, of the receive machine and of modbus_reply allow them, over a loss-free connection with any chunking, on either backend, ends with the tables of the abstract device and gives each call its result, in the return value and in dest. |
| `Sessions.RunExists` | src/modbus.c:1181-1705 | There is such a run for every sequence of operations. |
| `Client.BuildRequestBasis` | src/modbus-tcp.c:103-131 | Header with the next transaction id, wrapping after 65535, then function code, address and count; on a serial line slave, function code, address and count. |
| `Client.Exchange` | src/modbus.c:559-716 | Send, receive, check: the request frame goes out, one frame is taken from the stream, and the verdict is the one on that frame. |
| `Client.BuffersDoNotMatter` | src/modbus.c:559-575 | The verdict depends only on the request as sent and the frame as received, not on the rest of the two buffers. |
| `Client.ReadBits` | src/modbus.c:1181-1280 | For every peer: a failure leaves dest untouched; a success stores exactly nb bits decoded from the frame judged, or nothing when send accepted 0 octets. Too large a count does nothing. |
| `Client.ReadRegisters` | src/modbus.c:1283-1377 | For every peer: a failure leaves dest untouched; a success stores exactly nb registers decoded from the frame judged, except that a send of 0 octets returns 0 and stores nothing. |
| `Client.WriteSingle` | src/modbus.c:1381-1429 | The request sent is the single write; what the result is against any peer is Calls.WriteCall. |
| `Client.WriteBits` | src/modbus.c:1432-1492 | The request sent carries exactly the nb bits; result as in Calls.WriteCall. Too large a count does nothing. |
| `Client.WriteRegisters` | src/modbus.c:1495-1541 | The request sent carries exactly the nb registers; result as in Calls.WriteCall. Too large a count does nothing. |
| `Client.MaskWriteRegister` | src/modbus.c:1543-1579 | The request sent is address and masks, the count of the basis overwritten; result as in Calls.WriteCall. |
| `Client.WriteAndReadRegisters` | src/modbus.c:1583-1660 | The request sent is the double one; dest changes only on success and only to the registers decoded. |
| `Client.ReportSlaveId` | src/modbus.c:1664-1705 | The request sent has no address and count; result and dest as in Calls.SlaveIdCall. A max_dest below 1 does nothing. |
| `Client.JudgedRead` | src/modbus.c:1199-1217 | A read judged successful comes from a frame with exactly the octets asked for. |
| `Client.ReadSound` | src/modbus.c:559-716 | A read is judged successful if and only if the frame received, whole, is for the function asked, with the exact byte count, and carries the transaction id (TCP) or the slave and a right CRC (serial). |
| `Client.BitsSound` | src/modbus.c:1181-1280 | Against any peer: on failure dest is untouched; on success dest holds the nb bits of such a frame if send accepted the request, and is untouched if it accepted nothing. |
| `Client.RegistersSound` | src/modbus.c:1283-1377 | The same for registers and function 0x17, where accepting nothing is returned as 0. |
| `Client.SlaveIdChecked` | src/modbus-rtu.c:349-367 | Slave ids are taken only from frames with a right CRC if and only if the request was not to slave 0. |
| `Client.ExchangeCorrect` | src/modbus.c:1181-1705 | Over a loss-free link whose stream starts with the server's answer every client function ends judged, with the abstract result, and leaves the rest of the stream. |
| `Client.AnswerIsJudged` | src/modbus.c:1181-1705 | For every request, tables and rest of the stream there is an exchange in which the server's answer is taken and judged: what the next three members assume happens. |
| `Client.BitsOverWire` | src/modbus.c:1181-1280 | A bit read answered by the server puts exactly the addressed cells into dest and returns nb, or returns the illegal-value or illegal-address error and leaves dest alone. |
| `Client.RegistersOverWire` | src/modbus.c:1283-1377 | The same for registers, those after the call's own write for function 0x17. |
| `Client.WrittenOverWire` | src/modbus.c:1381-1579 | A write answered by the server returns the number of cells written, or the illegal-value or illegal-address error. |
| `Calls.ExchangeEnds` | src/modbus.c:559-716 | An exchange ends with the request not sent or sent in part and the error that goes with it; or with the whole request sent and a failure of the medium, a frame that is too long or a wrong checksum; or with one whole frame taken from the stream. |
| `Calls.Judgement` | src/modbus.c:559-716 | For every request a frame is accepted if and only if it has, in octets, the ids, the function code and the fields or the length asked for; the value then returned, and the errno of every other frame, are given case by case. |
| `Calls.WriteCall` | src/modbus.c:1381-1579 | Soundness of writes against any peer: a value is returned if and only if send accepted nothing, which is 0, or the first frame that came confirms the write, which is the number of cells written; without a frame the call fails. |
| `Calls.SlaveIdCall` | src/modbus.c:1664-1705 | Soundness of slave ids: the full count of a frame that confirms is returned and at most max_dest of its octets are stored, the rest of dest untouched; otherwise dest stays and the errno is that of the medium or the frame. |
| `Calls.BitsCall` | src/modbus.c:1181-1280 | Soundness of bit reads, cell by cell: cell k is bit k mod 8 of data octet k / 8 of a frame that confirms; otherwise dest stays and the errno is given. |
| `Calls.RegistersCall` | src/modbus.c:1283-1377 | Soundness of register reads and function 0x17: cell k is 256 times data octet 2k plus the next; otherwise dest stays and the errno is given. |
| `Layout.RequestLayout` | src/modbus.c:1181-1705 | Every request in octets: header or slave and checksum, function code, address, count and data fields as numbers, each bit and register of the data in its place. |
| `Layout.ClientLimits` | src/modbus.h:66-106 | The counts the client functions accept are at most 2000, 125, 1968, 123, 121 and 125. |
| `Layout.ReadBitsResponse` | src/modbus.c:812-849 | Functions 0x01 and 0x02 in octets: refused with 3 outside 1 to 2000 cells, else with 2 unless all addresses are cells of the coils (the discrete inputs), else answered with each cell in its bit and zeros behind. |
| `Layout.ReadRegistersResponse` | src/modbus.c:850-894 | Functions 0x03 and 0x04, likewise, for 1 to 125 holding (input) registers. |
| `Layout.WriteBitResponse` | src/modbus.c:895-925 | Function 0x05: refused with 2 for an address without a coil, else set by 0xFF00 and cleared by 0, else refused with 3. |
| `Layout.WriteRegisterResponse` | src/modbus.c:926-945 | Function 0x06. |
| `Layout.WriteBitsResponse` | src/modbus.c:946-982 | Function 0x0F: refused with 3 outside 1 to 1968 coils or with too few octets, else with 2 for an address without a coil; else coil by coil the bit of the request, all others as before. |
| `Layout.WriteRegistersResponse` | src/modbus.c:983-1021 | Function 0x10: likewise for 1 to 123 registers with exactly two octets each. |
| `Layout.SlaveIdResponse` | src/modbus.c:1022-1037 | Function 0x11: 11 octets, 180, 0xFF and LMB3.1.10. |
| `Layout.MaskWriteResponse` | src/modbus.c:1045-1067 | Function 0x16, from the octets of the request: bit k of the register is the old one where bit k of the AND mask (octets 3 and 4) is 1, and bit k of the OR mask (octets 5 and 6) elsewhere. |
| `Layout.WriteAndReadResponse` | src/modbus.c:1068-1124 | Function 0x17: 1 to 121 registers written, then 1 to 125 read from the table as written. |
| `Layout.OtherResponse` | src/modbus.c:1126-1134 | Every other function code but 0x07 is refused with 1 and changes nothing. |
| `Layout.NoResponse` | src/modbus.c:1038-1044 | Function 0x07 alone has no outcome to answer and changes nothing. |
| `Layout.AnswerLayout` | src/modbus.c:1136-1143 | The answer frame in octets: transaction and unit of the request, protocol 0 unless it is an echo, the octets still to come, or the checksum. |
| `Layout.FlushLayout` | src/modbus.c:762-766 | The input is flushed once with refusal 1, or with refusal 3 except of function 0x05, and never otherwise. |
| `Layout.ReplyLayout` | src/modbus.c:783-1144 | Every effect the contract of the reply allows, in octets: tables, what goes out, and the result. |
| `Layout.CutLayout` | src/modbus.c:273-344 | Where a frame ends, for every function code and both directions, and that more than 260 (TCP) or 256 (serial) octets are too many. |
| `Layout.IntegrityLayout` | src/modbus-rtu.c:349-385 | Another slave's frame gives 0 whatever its checksum; an own or broadcast one is right exactly when its remainder is 0. |
| `Layout.ReceiveLayout` | src/modbus.c:358-528 | What a call of the receive machine consumes, stores and returns, from the octets of the stream alone, errnos included. |
| `Layout.BitWeights` | src/modbus.c:718-741 | Bit k of a 16-bit number has the weight 2 to the k. |
| `Layout.OrBits` | src/modbus.c:725-734 | The `\|` of the packing loops, bit by bit. |
| `Layout.ShiftedBits` | src/modbus.c:725-734 | The `<<` of the packing loops, bit by bit. |
| `Layout.TableLayout` | src/modbus.c:812-894 | Cell k of a table has the address start plus k, and the table has no others. |
| `Serving.ServeQuery` | tests/bandwidth-server-many-up.c:116-120 | On a loss-free link whose stream starts with a client's request, receiving and replying does the intended operation to the tables, sends exactly its answer and consumes exactly the request. |
| `Stream.ParseUndoesPrint` | src/modbus.c:393-527 | Repeated receives on the concatenation of any frames return exactly those frames, each consuming its own octets, for all chunk sizes. |
| `Stream.RequestsPrintable` | src/modbus.c:1181-1705 | Every client request is such a frame. |
| `Stream.AnswersPrintable` | src/modbus.c:783-1144 | Every server answer to a plain request is such a frame. |
| `Stream.RequestLengths` | src/modbus-tcp.c:161-170 | The sent length, the length the receiver finds and the MBAP length plus 6 of a request agree and fit the maximum ADU. |
| `Stream.AnswerLengths` | src/modbus.c:128-162 | The same for answers, with the length the client predicts, or header, two octets and checksum for an exception. |
| `Transactions.AfterIsSum` | src/modbus-tcp.c:108-114 | The n-th id after t is (t + n) mod 65536. |
| `Transactions.IdsDiffer` | src/modbus-tcp.c:108-114 | Two requests of a run share an id if and only if their distance is a multiple of 65536. |
| `Transactions.IdEchoed` | src/modbus-tcp.c:133-159 | Normal and exception answers carry the id of their request and protocol 0. |
| `Transactions.StaleAnswer` | src/modbus-tcp.c:196-225 | An earlier request's answer passes the pre-check of a later one if and only if their distance is a multiple of 65536; within the window it is refused with EMBBADDATA. |
| `Transactions.LateAnswer` | src/modbus-rtu.c:325-344 | On a serial line a late answer is taken for that of a later request if and only if both went to the same slave and share function and, for reads, the number of data octets, for writes, address and value or count, for a mask write or slave id, nothing else; a late refusal is reported with its code if and only if slave and function are shared. |
| `Transactions.LateReadExample` | src/modbus-rtu.c:325-344 | The register at address 0, asked for before, is returned for the register at address 100. |
| `Bus.HearIsReceive` | src/modbus-rtu.c:291-312 | The receive half of a slave's step is what the receive method does on a loss-free link. |
| `Bus.ReplyIsTake` | src/modbus.c:783-1144 | Every effect the reply method may have on a loss-free link, its flush included, is the other half of a step. |
| `Bus.TakeIsReply` | src/modbus.c:783-1144 | And every such half step is one of those effects. |
| `Bus.DroppableIs` | src/modbus.c:762-766 | A flush may drop everything behind an empty quantity the slave serves, and nothing otherwise. |
| `Bus.FrontOfQueue` | src/modbus-rtu.c:291-312 | What a slave reads next is the next event it has not seen, and its flag tells whether that is an answer. |
| `Bus.DropAnswer` | src/modbus-rtu.c:296-303 | Another slave's answer is dropped whole and the flag cleared. |
| `Bus.SkipRequest` | src/modbus-rtu.c:305-309 | Another slave's request is not executed and sets the flag. |
| `Bus.TakeBroadcast` | src/modbus.c:1136-1143 | A broadcast is executed and not answered, when the flush takes nothing. |
| `Bus.TakeOwn` | src/modbus.c:783-1144 | A request to the slave is the last event on the line; it is executed and answered. |
| `Bus.StepKeepsInv` | src/modbus-rtu.c:291-312 | Every step of master and slaves, under every flush and with waits running out, keeps the invariant from a state where no slave has an unserved empty broadcast with more octets behind it, unless the step is a wait that runs out too soon: a slave's while the slave addressed is on the line and owes its answer, or the master's while that slave is there or some slave has octets to read or a flag set. |
| `Bus.TimeOutExact` | src/modbus-rtu.c:296-303 | A slave's wait that runs out, part of an answer consumed, keeps the invariant if and only if nobody on the line owes that answer. |
| `Bus.TimeOutIsReceive` | src/modbus.c:409-428 | That step is one the receive method may take when its wait for an answer is cut short. |
| `Bus.GiveUpExact` | src/modbus.c:409-428 | The master going on without an answer keeps the invariant if and only if the slave addressed is absent and every slave has read everything and waits for nothing. |
| `Bus.BusSafety` | src/modbus-rtu.c:291-312 | Over all runs that never expose a slave in that way and in which no wait runs out too soon: every slave stays on frame boundaries and can always read on, its flag is set while a slave on the line owes the answer to a foreign request and at most while such an answer is missing, only the slave addressed answers, and a slave that has read everything holds the in-order fold of the requests to it or to all. |
| `Bus.GuardExact` | src/modbus.c:762-766 | These conditions are exact: reading on from every point of a run, under every flush, keeps the invariant if and only if at no point a broadcast with an empty quantity is followed by more octets before every slave has served it, and no wait of a slave or of the master runs out too soon, as one may during the sleep of line 765. |
| `Bus.ExposedBreaks` | src/modbus.c:762-766 | An exposed slave can read on to a state in which its queue is the rest of the line from no point of the log. |
| `Bus.LostRequest` | src/modbus.c:762-766 | A request sent right behind an empty broadcast may be dropped whole: not executed, not answered, and all that can follow is that the master gives up. |
| `Bus.LostRequestExample` | src/modbus.c:762-766 | Register 0 of slave 1 keeps 0 where the requests call for 7. |
| `Bus.MasterResult` | src/modbus.c:1136-1143 | Every answer on the line gives the master the result of its request on the tables folded so far. |
| `Bus.ImpatientMaster` | src/modbus-rtu.c:296-303 | A request that reaches a slave still waiting for an answer is cut on its own boundary if and only if it is a read with address high octet 3, a single or mask write, or a 0x17 whose read address has high octet 8 + 2n for n registers written; then the slave drops it, whoever it is addressed to. |
| `Bus.HastySlave` | src/modbus.c:762-768 | An answer that reaches a slave whose wait ran out before is cut on its own boundary as a request if and only if it carries 17 to 24 bit cells, echoes a single or mask write, or answers 0x17 with a fourth register whose low octet is 2n - 8 for n registers; whatever is cut, the slave takes it for a foreign request and sets its flag with nothing to come. |
| `Bus.HastyRun` | src/modbus.c:762-768 | For any two slaves, tables and refused quantity: if the other slave's wait runs out while the slave addressed sleeps before it refuses, the other one keeps one stray octet, on no boundary of the line, with its flag set and nothing to come. |
| `SerialWindows.Win32Ser.constructor` | src/modbus-rtu.c:161-168 | The buffer starts empty. |
| `SerialWindows.Win32Ser.Select` | src/modbus-rtu.c:171-219 | Octets are fetched only into an empty buffer; the length asked for is passed on, 512 if it is negative or more; 1, 0 and -1 tell octets, none and a failure apart. |
| `SerialWindows.Win32Ser.Read` | src/modbus-rtu.c:221-236 | The front of the buffer is copied and counted off, and nothing is moved. |
| `SerialWindows.Win32Ser.SelectAndRead` | src/modbus.c:416-444 | A select and a read with one length keep the contract of the link's receive and leave the buffer empty. |
| `SerialWindows.PairedRun` | src/modbus-rtu.c:171-236 | Over every run of such pairs the octets delivered are the port's octets in order. |
| `SerialWindows.ShortReads` | src/modbus-rtu.c:221-236 | A read of another length than the select delivers every chunk rightly if and only if it takes nothing or the whole chunk. |
| `Meter.SubstationMeter.constructor` | tests/sim_substation_meter.c:32-32 | Totals and mirror start at zero. |
| `Meter.SubstationMeter.InitializeRegisters` | tests/sim_substation_meter.c:34-83 | Mirror and totals become the fold of the file's lines, each stored and charged with its sign to the section it stands in. |
| `Meter.SubstationMeter.CheckFileAndNotify` | tests/sim_substation_meter.c:85-137 | Mirror and totals become the fold of the file's lines, each changed one charged with the difference. |
| `Meter.SubstationMeter.UpdateTotalValue` | tests/sim_substation_meter.c:203-218 | Cells 10 and 26 become the totals and nothing else changes. |
| `Meter.StoreBalanced` | tests/sim_substation_meter.c:108-121 | Charging the difference of one register keeps both totals equal to the signed sums. |
| `Meter.InitLineExact` | tests/sim_substation_meter.c:53-65 | An initialising line keeps the totals right if and only if the register it stores held zero. |
| `Meter.NamedTwiceExample` | tests/sim_substation_meter.c:53-65 | A register named twice at start leaves a wrong total. |
| `Meter.CheckBalanced` | tests/sim_substation_meter.c:85-137 | Any scan of a conforming file keeps the totals right and cells 10 and 26 showing them. |
| `Meter.SectionOf` | tests/sim_substation_meter.c:45-49 | The flag carried from line to line says that a current header stands above with no voltage header between. |
| `Meter.InitMirror` | tests/sim_substation_meter.c:51-57 | After a file is read at start each register holds what the last line that names it, as 3000 + a or as a, gives it. |
| `Meter.CheckMirror` | tests/sim_substation_meter.c:101-121 | So it does after a scan, cells 10 and 26 excepted when the totals are published there. |
| `Meter.TotalsAreSums` | tests/sim_substation_meter.c:220-251 | After start and any scans each total is the sum of the exporting less that of the importing devices' registers, current and voltage by the headers the registers stand under, and cells 10 and 26 show them, when each register has one owner, is named once at start and is not 10 or 26. |
| `Meter.TotalsExact` | tests/sim_substation_meter.c:203-218 | Publishing the totals keeps them equal to the sums if and only if it changes no device register at cells 10 and 26, or changes two of one section by amounts that cancel. |
| `Meter.OneTotalCell` | tests/sim_substation_meter.c:203-218 | With one of the two cells free: if and only if the other is free too or shows its total already. |
| `Meter.CheckLineExact` | tests/sim_substation_meter.c:100-131 | A scanned line keeps the totals right if and only if its register is at its value already or the totals with the difference charged can be published over what cells 10 and 26 then hold: no device register moves there, or two of one section move by amounts that cancel. |
| `Meter.TotalCellExample` | tests/sim_substation_meter.c:203-218 | Files with a device register at cell 10, and at cell 26, that leave a wrong total. |
| `Meter.AdmittedInBounds` | tests/sim_substation_meter.c:97-100 | An address the range check admits is a register of the mirror if and only if it is neither 30 nor negative; 3030 is admitted. |
| `SelectServer.Server.constructor` | tests/bandwidth-server-many-up.c:71-79 | The set starts as the listening socket alone. |
| `SelectServer.Server.ServeOne` | tests/bandwidth-server-many-up.c:92-136 | A ready descriptor is accepted on, answered or closed, as accept and receive turn out; set and highest descriptor change accordingly. |
| `SelectServer.Server.Round` | tests/bandwidth-server-many-up.c:81-138 | In a round each descriptor ready at its start is served exactly once, in ascending order, and no other. At its end the descriptor accepted is registered, the connections given up are not, every other one is exactly if it was before, and the set stays below the highest descriptor with the listening socket in it. |

## Left out

- Bus.BusSafety: timers are not modelled, so that no wait runs out too soon is a condition on the run, not a result; `Bus.GuardExact` shows that it is needed, and `Bus.ImpatientMaster`, `Bus.HastySlave` and `Transactions.LateAnswer` what happens otherwise. Octets are neither lost nor damaged on the line itself, only dropped by a slave's flush or consumed by a wait that runs out.
- Bus.StepKeepsInv: a frame reaches all queues at once; octets that trickle in are in `Transport.ReceiveMsg`. A wait that runs out for a slave that reads a request, after part of it, is not a step.
- Sessions.RunIsAbstract: one client and one server, nothing lost on the way, bit cells that hold 0 or 1 at the start, and a unicast slave on a serial line. With losses, `Client.BitsSound`, `Client.RegistersSound` and the verdict lemmas say what a call may return.
- Server.SameFrameSameReply: for a link that accepts the whole answer; a partial send may differ between two calls.
- Transport.SendMsg: without link recovery, under which the source's loop has no bound.
- Transport.ReceiveMsg: timeouts, resets and I/O errors are one nondeterministic loss each; protocol and link recovery (sleeping, flushing, reconnecting) are not modelled.
- SelectServer.Server.ServeOne: what accept and receive return in the round is a parameter, and accept returns no open descriptor; the set of descriptors is unbounded, while the source's has room for those below FD_SETSIZE, and a larger one from accept would be set outside it.
- Meter.TotalsAreSums: floats are reals, lines are already parsed, and files naming address 30 or a negative one are excluded (`Meter.AdmittedInBounds`).
- Function 0x07 and function codes from 0x80 on are excluded from the end-to-end, framing and bus results; the server's atomicity and dependence on received octets cover them.
- Client.ReadBits: counts are naturals. The C int could be negative, which the function does not check; the request then asks for the count modulo 65536.
- Client.ReadRegisters: counts are naturals, as for `Client.ReadBits`.
- Client.WriteBits: counts are naturals; with a negative one the source sends a request without data.
- Client.WriteRegisters: counts are naturals, as for `Client.WriteBits`.
- Client.WriteAndReadRegisters: counts are naturals, as for `Client.ReadBits` and `Client.WriteBits`.
- Meter.SubstationMeter.InitializeRegisters: files naming address 30 or a negative one are excluded, because the source then writes outside the array.
- Meter.SubstationMeter.CheckFileAndNotify: the same files are excluded.
- Raw requests (`modbus_send_raw_request`, `modbus_reply_exception`) and confirmations received without a request.
- The reply-to-broadcast quirk on the bus; `Server.Reply` has it. The quirk that allows slave numbers up to 255.
- Sockets, termios, RTS and Windows port setup, address resolution, connecting, listening; memory allocation failure; getters, setters, debug output and error strings.
- The float codecs of src/modbus-data.c, which are fixed shuffles of four octets.
- The other simulators' main loops and text files, the notifications of the meter to its controller, and the unit, random and bandwidth clients.
