# pyomb: framing and protocol state, verified

pyomb speaks Modbus over serial lines and over TCP. This project models, in Dafny, how it
finds whole frames in a stream of bytes and what state it keeps around them, and proves
what a user of it relies on. `dafny verify dfyconfig.toml` checks all of it.

## The parts

* `Bytes`, `Struct`: bytes, 16-bit words, exclusive or as arithmetic, and the `struct`
  formats the codecs use (big-endian, letters B and H).
* `Crc`, `CrcOrder`, `CrcVectors`: the CRC-16 of MODBUS over Serial Line Specification and
  Implementation Guide, sections 2.5.1.2 and 6.2.2, its power to detect damage, and the
  published check value.
* `Pdu`, `PduLaws`: every PDU class the library registers, as one layout datatype (fields
  of fixed width, an optional tail, an optional count), with sizing from a prefix, parsing
  and serializing, and the laws that tie these three.
* `WireForms`: the same by bytes, class by class, written without layouts: what each PDU
  decodes to and how long each frame says it is. Parsing, sizing and the verdict on a buffer
  are proved equal to it.
* `Rtu`, `RtuSplitter`, `RtuStream`, `RtuStreamLaws`: RTU frames carry no length. The
  verdict on a buffer head, the splitter that is pushed bytes, the stream that reads a port
  whose reads may be short, and the agreement of the two.
* `Tcp`, `TcpStream`, `TcpTransfer`: MBAP frames (section 3.1.3 of MODBUS Messaging on
  TCP/IP Implementation Guide V1.0b), over a socket whose reads may be short, up to a
  sender and a receiver end to end.
* `Responder`, `Client`, `ClientRuns`, `ClientCases`, `Connections`: what the server
  simulator answers, how the client simulator matches answers to requests over whole runs,
  and what the server remembers of its connections.

What the source updates in place is a class with the same fields, and its methods are
proved against functions; the laws are lemmas about those functions. A port, or a socket,
is an object holding what will arrive before the line goes quiet, or the peer closes or
the socket fails; a read takes any non-empty part of it, chosen arbitrarily, so each
result holds however the bytes are delivered. An exception is a value of an outcome type,
or `None`.

## Where the code and its promises part

* A serial-line ADU is at most 256 bytes (Modbus Application Protocol V1.1b3, section 4.1).
  The sized path of `read_rtu_frame` does not enforce it; `Rtu.SizedFrameMayExceedLimit`
  says of every frame read when it is longer, and `Rtu.LongFrameExists` gives one.
* An FC1 or FC2 response with a wrong count byte parses and cannot be serialized again.
  `PduLaws.ParseThenPrint` says that this happens for no other PDU;
  `PduLaws.WrongCountCannotBePrinted` gives one.
* `ModbusRtuStream` reports its discards in `resyncs`, but a packet error also clears up to
  three bytes it does not count. `RtuStreamLaws.ReceptionConserves` says which and when,
  `RtuStreamLaws.RunConserves` adds them up over a run, and `RtuStreamLaws.StrayByteUncounted`
  gives one.
* The server does not answer every request it can read: `Responder.ResponseSerializes`
  and `Responder.AnsweredIff` say which ones end in a device failure, and
  `Responder.TooManyCoilsUnanswered` gives one.
* A transaction identifier is reused after 65536 claims, so a wait can take the answer to
  an old request for that to the latest. `ClientRuns.WhatAWaitAnswers` says exactly when,
  `ClientRuns.AnswersTheLatest` that it does not happen within 65536 claims of the oldest
  unanswered request, and `ClientCases.OneTooManyAnswersTheOldest` gives a run in which it does.
* A read that fails throws away what it had read of a frame, so after a wait that times out
  inside a reply the rest of that reply is read as a frame. `ClientRuns.SteadyIffUntorn`
  says exactly when the client loses its place, the two laws above are for runs in which it
  does not, and `ClientCases.TornWaitAnswersWrong` gives a run in which it does and is told
  something no one said.
* The checksum does not notice two flipped bits 32767 apart, and `CrcOrder.TwoFlipsPassIff`
  says that it notices all others; `CrcOrder.ThreeFlipsDetected` that no frame of up to 4095
  bytes is long enough to matter.

## Model

| member | source | states |
|---|---|---|
| Rtu.ReadRtuFrame | src/pyomb/transport/rtu.py:105-145 | the verdict on a buffer head: a frame at least four bytes long that lies within the buffer, how many more bytes to read (never none), or that no frame can start or be sized here; fewer than four bytes are always incomplete |
| WireForms.VerdictByBytes | src/pyomb/transport/rtu.py:90-145 | the verdict by function code and bytes: how long each class says its frame is, which byte holds its count, how much of it has to have come, and then the checksum |
| WireForms.UnsizableIff | src/pyomb/transport/rtu.py:120-127 | the heads left to silence are FC43 and unregistered codes, exceptions aside, and FC8 with an echo or unlisted sub-function |
| Rtu.VerdictStable | src/pyomb/transport/rtu.py:105-145 | a decided verdict is final: no bytes appended after it change it |
| Rtu.WantedIsTight | src/pyomb/transport/rtu.py:105-145 | with fewer bytes than an incomplete verdict wants, it stays incomplete and wants exactly the rest |
| Rtu.ReadsSizableFrame | src/pyomb/transport/rtu.py:120-145 | a frame that checks and is as long as its content says is read, whole, whatever follows it |
| Rtu.ReadFrameIsSizable | src/pyomb/transport/rtu.py:120-145 | and nothing else is: what is read checks, and is as long as its content says |
| Rtu.StatedSizeMakesFrame | src/pyomb/transport/rtu.py:90-145 | every in-range PDU that states its own size, sent under any slave identifier, makes a frame the reader finds |
| Rtu.IncompleteIsSmall | src/pyomb/transport/rtu.py:128-135 | a buffer still undecided holds fewer than 268 bytes on the request side, 260 on the response side |
| Rtu.SizedFrameMayExceedLimit | src/pyomb/transport/rtu.py:31-37 | the 256-byte limit of a serial-line ADU is not enforced on the sized path: a frame read exceeds it exactly when its class counts its payload and the count byte is more than 253 less the head |
| Rtu.LongFrameExists | src/pyomb/transport/rtu.py:31-37 | such a frame exists: a write of 2040 coils is read as a frame of 264 bytes |
| Crc.CalcCrc16 | src/pyomb/adu/rtu.py:17-45 | the loop over bytes and bits computes the fold of the shift step over the data |
| CrcVectors.ShiftIsPlain | src/pyomb/adu/rtu.py:35-43 | one shift in arithmetic alone, for every register: halved, and bits 15, 13 and 0 flipped when a one was shifted out |
| CrcVectors.PublishedVector | tests/adu/test_rtu_crc.py:31-32 | so 01 03 00 00 00 01 checks to the published 0A84, sent 84 0A, and nothing at all to FFFF |
| Crc.WireRoundTrip | src/pyomb/adu/rtu.py:68-79 | the checksum goes out low byte first and comes back as it was, and no other two bytes read as it |
| Crc.ShiftLinear | src/pyomb/adu/rtu.py:35-43 | one shift step distributes over exclusive or |
| Crc.ShiftsInjective | src/pyomb/adu/rtu.py:35-43 | no two registers shift to the same one, however many steps |
| Crc.AcceptsIffResidueZero | src/pyomb/adu/rtu.py:48-79 | a frame of four bytes or more is accepted exactly when the checksum of all of it, its own checksum included, is zero |
| Crc.DamagedCopyAccepted | src/pyomb/adu/rtu.py:17-79 | whether a damaged copy of an accepted frame is accepted depends on the damage alone |
| Crc.BurstDetected | src/pyomb/adu/rtu.py:17-79 | a change confined to 16 consecutive bits in the order they are transmitted is always rejected, at any offset, any frame length, payload or checksum or both |
| Crc.OddDamageDetected | src/pyomb/adu/rtu.py:17-79 | so is every change of an odd number of bits, wherever they are |
| CrcOrder.Squares | src/pyomb/adu/rtu.py:35-43 | shifting 2^(k+4) times is shifting 2^(k+1) and 2^k times, added, in the registers that x^15 + x + 1 takes to zero |
| CrcOrder.OneBitPeriod | src/pyomb/adu/rtu.py:35-43 | a register that holds one bit holds it again after every 32767 shifts and at no other time |
| CrcOrder.FlipShows | src/pyomb/adu/rtu.py:17-45 | what a flipped bit does to the checksum depends only on its distance from the end |
| CrcOrder.TwoFlipsPassIff | src/pyomb/adu/rtu.py:17-79 | two flipped bits go unnoticed exactly when they are a multiple of 32767 apart, in any frame of any length |
| CrcOrder.ThreeFlipsDetected | src/pyomb/adu/rtu.py:17-79 | every change of one, two or three bits is rejected in a frame of up to 4095 bytes |
| Rtu.ModbusRtuPacket.SetCrc | src/pyomb/adu/rtu.py:429-431 | sets the checksum field and nothing else |
| Rtu.ModbusRtuPacket.SerializePacket | src/pyomb/adu/rtu.py:446-468 | emits slave, PDU and recomputed checksum, stores that checksum, and changes nothing where the packet does not serialize |
| Rtu.DeserializedFields | src/pyomb/adu/rtu.py:471-514 | a stream deserializes exactly when it is four bytes or more and, if verified, its checksum is right; the slave is its first byte, the checksum its last two, and the PDU serializes to what is between |
| Rtu.DeserializePacket | src/pyomb/adu/rtu.py:471-514 | the packet object made carries those fields |
| Rtu.ReserializeMends | src/pyomb/adu/rtu.py:446-514 | without verification every stream of four bytes or more deserializes, and serializing it again replaces just its checksum with the right one |
| Rtu.AcceptsIffReproduced | src/pyomb/adu/rtu.py:471-514 | a stream deserializes exactly when its checksum is right, which is exactly when serializing it again gives it back byte for byte |
| RtuSplitter.DrainStops | src/pyomb/transport/rtu.py:237-251 | after any push the head is undecided and at most 267 bytes are pending on the request side, 259 on the response side |
| RtuSplitter.DrainInTwo | src/pyomb/transport/rtu.py:237-251 | what was decided early stays decided, and the rest goes on from what was left over |
| RtuSplitter.ChunksAreOnePush | src/pyomb/transport/rtu.py:210-230 | any run of pushes, empty ones included, does what one push of all the bytes does |
| RtuSplitter.ChunkingIndependence | src/pyomb/transport/rtu.py:210-251 | any two ways of cutting the same bytes into pushes give the same frames in order, the same pending bytes and the same resyncs |
| RtuSplitter.DrainConserves | src/pyomb/transport/rtu.py:210-251 | the bytes are, in order, the serialized frames returned and the bytes discarded, followed by the buffer: none invented, altered, reordered or dropped uncounted |
| RtuSplitter.PushAccounting | src/pyomb/transport/rtu.py:195-230 | the count of bytes pushed is that of the frames returned plus `resyncs` plus `pending` |
| RtuSplitter.SplitterComplete | src/pyomb/transport/rtu.py:210-251 | any number of whole sizable frames, in any chunking, all come back in order with no resync and nothing pending |
| RtuSplitter.MessagesArrive | src/pyomb/transport/rtu.py:148-175 | PDUs that state their size, serialized back to back and cut anywhere, come back as as many packets whose slave and parsed PDU are the ones sent |
| RtuSplitter.ModbusRtuSplitter.constructor | src/pyomb/transport/rtu.py:180-188 | starts empty with nothing counted |
| RtuSplitter.ModbusRtuSplitter.Reset | src/pyomb/transport/rtu.py:205-208 | drops what is held and zeroes the count |
| RtuSplitter.ModbusRtuSplitter.Push | src/pyomb/transport/rtu.py:210-230 | the frames returned, the buffer and `resyncs` are those of the specification, and everything pushed since construction or reset stays accounted for |
| RtuSplitter.ModbusRtuSplitter.Discard | src/pyomb/transport/rtu.py:232-235 | drops the leading byte, and counts it |
| RtuSplitter.ModbusRtuSplitter.Take | src/pyomb/transport/rtu.py:237-251 | returns the next whole frame, or nothing exactly once the head is undecided; the discards before it are counted |
| RtuStream.ModbusRtuStream.Discard | src/pyomb/transport/rtu.py:410-414 | drops the leading byte, and counts it twice: in `resyncs` and in the noise of this call |
| RtuStream.ModbusRtuStream.Take | src/pyomb/transport/rtu.py:416-421 | returns the leading bytes and keeps the rest |
| RtuStream.ModbusRtuStream.ReceiveAfterSilence | src/pyomb/transport/rtu.py:450-478 | the scan after silence: outcome, buffer and discards are those of the specification |
| RtuStream.ModbusRtuStream.ReceiveBySilence | src/pyomb/transport/rtu.py:423-448 | reads on to the silence or to 256 bytes, however short each read, and lets the checksum of all of it decide before the scan does |
| RtuStream.ModbusRtuStream.Receive | src/pyomb/transport/rtu.py:480-511 | terminates, and its outcome, buffer, unread bytes and discards are a function of the buffer and the bytes to come, not of the sizes of the reads |
| RtuStream.SeekAcrossRead | src/pyomb/transport/rtu.py:491-511 | how the wanted bytes are cut into reads makes no difference |
| RtuStreamLaws.NoOverRead | src/pyomb/transport/rtu.py:480-511 | from an empty buffer a sizable frame at the front is returned and not one byte past it is taken |
| RtuStreamLaws.FirstFrameIsFirst | src/pyomb/transport/rtu.py:465-473 | the scan after silence stops at the smallest offset at which a frame can be read |
| RtuStreamLaws.ReadableIffFrameAt | src/pyomb/transport/rtu.py:465-473 | a frame can be read at an offset exactly when one that checks and is as long as it says starts there |
| RtuStreamLaws.AfterSilenceOutcome | src/pyomb/transport/rtu.py:450-478 | after silence the frame at the smallest offset that has one is returned with what follows it kept; a packet error comes exactly when no offset has one, and leaves nothing held |
| RtuStreamLaws.TimesOutIffNothing | src/pyomb/transport/rtu.py:460-461 | `receive()` times out exactly when nothing was held and nothing arrived |
| RtuStreamLaws.SeekConserves | src/pyomb/transport/rtu.py:491-511 | the search for a head drops only from the front, and counts what it drops |
| RtuStreamLaws.SeekPassesNoFrame | src/pyomb/transport/rtu.py:491-511 | the search passes over no offset that has a frame, and the head it stops at is the first that has one |
| RtuStreamLaws.UnsizedIff | src/pyomb/transport/rtu.py:494-500 | silence decides exactly when the bytes held and to come start with a head no content sizes |
| RtuStreamLaws.ReceptionOutcome | src/pyomb/transport/rtu.py:423-511 | from the bytes held and to come: a timeout exactly when there are none; all that was heard, when its head is unsizable and its checksum right; otherwise the frame at the smallest offset that has one, and a packet error exactly when no offset has |
| RtuStreamLaws.ReceptionConserves | src/pyomb/transport/rtu.py:410-511 | bytes in are, in order, the bytes counted in `resyncs`, the frame returned or the bytes cleared uncounted, and what is held or unread; bytes are cleared exactly when what was heard frames to nothing, and they are the at most three last of it |
| RtuStreamLaws.StrayByteUncounted | src/pyomb/transport/rtu.py:475-478 | a single stray byte is such a packet error: cleared, and counted nowhere |
| RtuStreamLaws.RunConserves | src/pyomb/transport/rtu.py:410-511 | over any arrivals and any number of calls, all that arrived is in order what each call skipped, returned and cleared and then what is held and unread, and the counts add up with `resyncs` |
| RtuStreamLaws.UnsizableFrameAlone | src/pyomb/transport/rtu.py:423-448 | a frame of a class no content sizes, arriving alone and within 256 bytes, is returned whole on silence |
| RtuStreamLaws.UnstatedFrameAlone | src/pyomb/transport/rtu.py:423-448 | so are FC43 frames and those of unregistered codes |
| RtuStreamLaws.HeardLength | src/pyomb/transport/rtu.py:423-438 | where silence decides, no more than 256 bytes are read in all |
| RtuStreamLaws.SeekRefinesDrain | src/pyomb/transport/rtu.py:491-511 | one search settles just what a splitter given all those bytes settles first |
| RtuStreamLaws.SeekReadsOnly | src/pyomb/transport/rtu.py:491-511 | a search depends on no byte it has not read |
| RtuStreamLaws.ListenIsReception | src/pyomb/transport/rtu.py:480-511 | a call that finds a head returns its frame, discards what the trace says, and leaves the buffer the next call starts from |
| RtuStreamLaws.ListenRefinesDrain | src/pyomb/transport/rtu.py:210-511 | any number of calls settles what the splitter settles first, and silence leaves an undecided head |
| RtuStreamLaws.ListenReadsOnly | src/pyomb/transport/rtu.py:480-511 | a run of calls depends on no byte it has not read |
| RtuStreamLaws.DriversAgree | src/pyomb/transport/rtu.py:210-511 | up to the first head that no content sizes, the frames a run of `receive()` calls returns are a prefix of those a splitter returns for the bytes read, in any chunking; at the first silent read frames, buffer and resyncs all coincide |
| Struct.PackIffUnpack | src/pyomb/pdu/common.py:390-442 | packing values gives a stream exactly when unpacking that stream gives those values |
| Struct.PacksIff | src/pyomb/pdu/common.py:390-412 | packing succeeds exactly when there is one value for each format letter and each is in range |
| PduLaws.SerializedSize | src/pyomb/pdu/common.py:337-339 | `len(pdu)` is the length of what the PDU serializes to |
| PduLaws.SerializesIff | src/pyomb/pdu/common.py:444-462 | a PDU serializes exactly when its code, fields and tail fit their widths and, for FC1 and FC2 responses, the byte count is the number of status bytes |
| PduLaws.ParseThenPrint | src/pyomb/pdu/common.py:570-619 | whatever parses, on either side, serializes back to the same bytes, except that an FC1 or FC2 response whose count byte is not the number of its status bytes does not serialize |
| PduLaws.WrongCountCannotBePrinted | src/pyomb/pdu/bits.py:158-204 | 01 02 FF is such a response |
| PduLaws.GenericReadsAnything | src/pyomb/pdu/common.py:465-487 | the base class deserializes every stream but the empty one, and gives it back |
| PduLaws.PrintThenParse | src/pyomb/pdu/common.py:570-619 | the output of any PDU that serializes and whose code leads back to its class parses to that PDU |
| WireForms.ParseIsDecode | src/pyomb/pdu/common.py:570-619 | parsing is decoding, by function code and direction: the lengths each class accepts, the byte or word each field is, the bytes or words of its tail, and the exception response |
| WireForms.PrintsAs | src/pyomb/pdu/common.py:444-487 | a PDU serializes to just the bytes that decode to it |
| PduLaws.SizedIffStated | src/pyomb/pdu/common.py:341-379 | from a whole serialized PDU, with anything after it, `expected_size` is the true length exactly when the PDU states its size: a fixed layout, a count equal to its payload bytes, or a listed FC8 sub-function other than echo with one word |
| PduLaws.SizedFromPrefix | src/pyomb/pdu/common.py:341-379 | from any prefix of such a PDU the size is the true one or, exactly while the head is cut, not yet known |
| PduLaws.SubFunctionOnTheWire | src/pyomb/pdu/diagnostics.py:177-211 | the FC8 sub-function is where the size is computed from |
| Tcp.HeaderRoundTrip | src/pyomb/adu/tcp.py:76-114 | a header serializes to a stream exactly when that stream deserializes to it |
| Tcp.HeaderFields | src/pyomb/adu/tcp.py:92-114 | each field is where the MBAP puts it, high byte first |
| Tcp.HeaderSerializesIff | src/pyomb/adu/tcp.py:76-90 | a header serializes exactly when its fields fit their widths |
| Tcp.ValidHeaderIff | src/pyomb/adu/tcp.py:117-139 | a header is valid exactly when it is whole and its length counts what follows the length field, and its fields are at their bytes |
| Tcp.RequestReadIff | src/pyomb/adu/tcp.py:331-369 | a stream cannot be read as a request at all exactly when it has no PDU byte or a wrong length; otherwise it is read exactly when its PDU parses, and its header is kept when it does not |
| Tcp.ResponseReadIff | src/pyomb/adu/tcp.py:465-490 | a stream is read as a response exactly when its length is right and its PDU parses |
| Tcp.GenericReadIff | src/pyomb/adu/tcp.py:212-236 | and as a generic packet whenever its length is right and a PDU byte is there |
| Tcp.PacketBytes | src/pyomb/adu/tcp.py:195-209 | each header field of a packet is at its bytes, and the PDU follows |
| Tcp.RequestReadThenPrint | src/pyomb/adu/tcp.py:314-369 | a request that deserializes serializes back to the same bytes |
| Tcp.RequestPrintThenRead | src/pyomb/adu/tcp.py:314-369 | a request whose length field counts its PDU deserializes to itself |
| Tcp.ResponsePrintThenRead | src/pyomb/adu/tcp.py:448-490 | so does a response |
| Tcp.GenericReadThenPrint | src/pyomb/adu/tcp.py:195-236 | a generic packet deserializes exactly when its header is valid and a PDU byte is there, and serializes back to the same bytes |
| TcpStream.Fragment | src/pyomb/transport/stream.py:159-201 | fragments reassemble to the message; the first is the header, the rest have the size asked for, the last perhaps shorter and none empty; it fails exactly for a negative size |
| TcpStream.PduLengthIs | src/pyomb/transport/stream.py:360-384 | the PDU is as long as the length field says, less the unit identifier |
| TcpStream.ReceptionByBytes | src/pyomb/transport/stream.py:420-464 | one receive by the bytes: the message as long as its length field says, a network error when it is cut short, a packet error for a length of zero, and what is left unread in each case |
| TcpStream.ModbusTcpStream.RecvExactly | src/pyomb/transport/stream.py:309-336 | reads as many bytes as asked for, or all there are when the peer closes first, however short each read; raises when the socket fails first |
| TcpStream.ModbusTcpStream.ReceiveChunk | src/pyomb/transport/stream.py:403-416 | one turn of the loop: at least one byte and no more than are wanted, or a network error; with a negative fragment size it reads nothing and changes nothing, so the loop does not end |
| TcpStream.ModbusTcpStream.ReceivePdu | src/pyomb/transport/stream.py:386-418 | reads exactly the PDU whatever the fragment size, and fails exactly when the bytes end inside it |
| TcpStream.ModbusTcpStream.Receive | src/pyomb/transport/stream.py:420-464 | one message, nothing past it consumed, independent of `frag_size` and of the reads |
| TcpStream.ModbusTcpStream.Send | src/pyomb/transport/stream.py:279-307 | writes exactly the message, in fragments; a negative size fails before anything is written |
| TcpStream.Reassembles | src/pyomb/transport/stream.py:420-464 | frames sent back to back come out as those frames, followed by whatever the rest gives |
| TcpStream.ReceiveAllSplits | src/pyomb/transport/stream.py:420-464 | every stream is the messages received and a tail; receiving ends empty exactly when there is no tail and the peer closed, in a network error exactly when the bytes ended inside a frame or the socket failed, in a packet error exactly when a length field describes no frame |
| TcpTransfer.ModbusTcpSender.RunOnce | src/pyomb/transport/stream.py:551-582 | writes every packet up to the first that does not serialize, each with its length recomputed, and fails exactly when there is one; with a negative fragment size it recomputes the first length and writes nothing |
| TcpTransfer.OutgoingBytes | src/pyomb/transport/stream.py:567-576 | each packet goes out under its own identifiers, with a length that counts its bytes, and its PDU |
| TcpTransfer.SendingIs | src/pyomb/transport/stream.py:567-576 | the packets before the first that does not serialize go out, each as its bytes, and of these and that one only the length in the header is changed |
| TcpTransfer.ModbusTcpReceiver.RunOnce | src/pyomb/transport/stream.py:647-688 | captures every message up to the first that does not deserialize, and succeeds exactly when all do and the peer closed between frames |
| TcpTransfer.ReadEachIs | src/pyomb/transport/stream.py:660-680 | the messages kept are those before the first that does not deserialize, each as the packet it deserializes to |
| TcpTransfer.WireIsFrames | src/pyomb/transport/stream.py:551-582 | each packet sendable, each goes out as one whole frame that deserializes to a packet with its header and its bytes |
| TcpTransfer.SenderToReceiver | src/pyomb/transport/stream.py:467-688 | what a sender writes a receiver captures: as many packets, in order, with the same headers, serializing to the very bytes written; it raises exactly when the socket fails after them |
| Responder.ResponseSerializes | src/pyomb/simulators/server.py:728-1054 | a response serializes exactly when FC1 and FC2 ask for at most 2040 items, FC3, FC4 and FC23 for at most 127, and an undispatched function code is below 0x80 |
| Responder.AnsweredIff | src/pyomb/simulators/server.py:478-618 | a stream whose header cannot be read is a packet error; every other one is replied to exactly when its response serializes, and otherwise the device has failed |
| Responder.TooManyCoilsUnanswered | src/pyomb/simulators/server.py:584-588 | a request to read 2041 coils is read, and ends in a device failure |
| Responder.ReplyReadsBack | src/pyomb/simulators/server.py:591-618 | a reply is one whole MBAP frame that a client reads back as the response chosen, under the identifiers of the request |
| Responder.ReplyOnTheWire | src/pyomb/simulators/server.py:591-618 | in the bytes of a reply the transaction, protocol and unit identifiers are where the request had them, the length counts the bytes that follow, and the rest is the response |
| Responder.ResponseOnTheWire | src/pyomb/simulators/server.py:728-1040 | FC5, FC6, FC22 and FC43 come back byte for byte, FC15 and FC16 without what they wrote, FC1 and FC2 with as many set bytes as hold the bits asked for, FC3, FC4 and FC23 with as many full registers as asked for, FC7 with a zero status |
| Responder.HandledByBytes | src/pyomb/simulators/server.py:478-588 | by the bytes of what is asked: a wrong length field is a packet error, a PDU that does not parse is answered with exception code 3, one refused or not dispatched with 4 under its own code, or fails the device for a code of 0x80 or more; any other is answered exactly when its quantity can be counted |
| Responder.ConformingIsAnswered | src/pyomb/simulators/server.py:478-618 | a conforming request of a dispatched function code gets a conforming response of that code, its identifiers echoed and its length counting the bytes sent |
| Responder.ConformingRequestIff | src/pyomb/pdu/registers.py:621-632 | which requests conform, by code and bytes: quantities, output values, count bytes, sub-functions and the MEI type |
| Responder.ConformingResponseIff | src/pyomb/pdu/bits.py:145-156 | and which responses |
| Responder.ResponseConforms | src/pyomb/pdu/bits.py:647-662 | the response to a conforming request conforms: byte counts of bits rounded up, of registers doubled |
| Client.ModbusClientSimulator.TakeTransId | src/pyomb/simulators/client.py:275-289 | claims the next identifier, records it as pending and steps on modulo 65536 |
| Client.ModbusClientSimulator.SendRequest | src/pyomb/simulators/client.py:402-413 | writes exactly the request under the identifier claimed, and has claimed it even where nothing could be written |
| Client.RequestBytes | src/pyomb/simulators/client.py:402-413 | the bytes of a request: the identifier claimed, protocol 0, a length that counts them, the unit of the client, and the PDU |
| Client.RequestSendsIff | src/pyomb/simulators/client.py:402-413 | which requests can be written |
| Client.ModbusClientSimulator.WaitResponse | src/pyomb/simulators/client.py:416-466 | what the loop answers, raises, leaves unread and leaves pending is what the specification says of nine frames at most, whether the socket then closes or times out |
| Client.NextIdentifier | src/pyomb/simulators/client.py:284-287 | the identifier of each claim is its number modulo 65536, and the next one is a step on from it |
| Client.WaitFinds | src/pyomb/simulators/client.py:436-466 | over replies to any requests and the beginning of one more, a wait finds the first whose request has the pending identifier, or spends its nine frames, or loses that beginning at the end |
| ClientRuns.EveryRun | src/pyomb/simulators/client.py:275-466 | in every run of sends (failed ones included), serves, deliveries of any number of bytes, closes and waits, each reply is what the server said to the request it stands beside, identifiers step with the claims, and the pending one is that of the latest |
| ClientRuns.SteadyIffUntorn | src/pyomb/transport/stream.py:309-336 | the client reads from where a reply starts all through a run exactly when no wait found an open socket whose bytes ended inside a reply it had to read: fewer than nine whole ones ahead, none of them with the pending identifier |
| ClientRuns.AwaitSteadyIff | src/pyomb/transport/stream.py:309-336 | a wait that does loses that part of the reply, and what is left to read starts at no reply |
| ClientRuns.WaitReads | src/pyomb/simulators/client.py:436-466 | how many replies a wait reads, what it answers or raises, and what it leaves unread, from the replies that have arrived whole and the part of one more |
| ClientRuns.WhatAWaitAnswers | src/pyomb/simulators/client.py:416-466 | after every run no wait of which was torn so, a wait takes the answer to another request exactly when one of the next nine replies answers a request whose identifier has come round; it takes the answer to the latest exactly when none does, that request went out, and its answer has arrived with at most eight ahead of it; otherwise it stays pending |
| ClientRuns.ReusedNeedsARound | src/pyomb/simulators/client.py:284-287 | an identifier has come round only when more than 65536 were claimed from the oldest unanswered request on |
| ClientRuns.AnswersTheLatest | src/pyomb/simulators/client.py:416-466 | up to that many, a wait returns only what the server said to the latest request, under its identifiers and with everything read, and returns it exactly when it has arrived with at most eight earlier ones ahead of it |
| ClientCases.OneTooManyAnswersTheOldest | src/pyomb/simulators/client.py:275-289 | one claim more is too many: a request served, and 65536 more sent, is a run after which the wait takes the answer to the first for that to the last |
| ClientCases.TornWaitAnswersWrong | src/pyomb/transport/stream.py:322-336 | a wait that times out inside a reply can make the next one wrong: the rest of that reply, which the request asked to have echoed, is taken for the answer to a second request of which none has come |
| Connections.ModbusServerSimulator.ForgetConnection | src/pyomb/simulators/server.py:247-273 | removes a connection from all four records, where it is in them |
| Connections.ModbusServerSimulator.AcceptConnection | src/pyomb/simulators/server.py:309-350 | adds a connection to all four records, or refuses it at the limit |
| Connections.ModbusServerSimulator.ServeConnection | src/pyomb/simulators/server.py:352-390 | forgets a connection that failed, closed or whose handling raised, and stamps one that was heard |
| Connections.ModbusServerSimulator.SweepInactive | src/pyomb/simulators/server.py:392-415 | walks a copy of the read list and forgets the expired |
| Connections.ModbusServerSimulator.RunPass | src/pyomb/simulators/server.py:450-465 | one pass: accept, then serve whoever is ready, then sweep |
| Connections.SweepRemovesExpired | src/pyomb/simulators/server.py:392-415 | a sweep removes exactly the expired connections, keeps the others in order, and keeps the records in agreement |
| Connections.PassKeeps | src/pyomb/simulators/server.py:450-465 | a pass keeps the read list, the client list and the keys of both maps the same duplicate-free set, within the limit |
| Connections.EveryRunConsistent | src/pyomb/simulators/server.py:431-470 | so does every run of passes from the opening of the listener |
| Connections.PassAdmits | src/pyomb/simulators/server.py:309-350 | a connection that was no client becomes one in a pass exactly when it came in and there was room below the limit (and the timeout is not negative); it counts as heard at that time, and its name is the address it came from |
| Connections.PassOutcome | src/pyomb/simulators/server.py:309-465 | a client is still there after a pass exactly when serving it did not fail and it has been heard from within the timeout, this pass counted; the time it was heard is what is kept, and its address |
| Connections.PassKeepsOrder | src/pyomb/simulators/server.py:309-415 | clients stay in the order they came: a pass adds the newcomer at the end and takes some out |

## Left out

- Sockets, `select`, threads, locks, sleeping, start-up and shutdown, and the stop events
  set from another thread: only the step each pass takes is modelled. A stop is read once,
  when `run_once` begins.
- A socket write is taken whole; `send` ignores the count the socket returns.
- TLS, logging, `__str__` and the wording of errors; an error is its kind.
- Changes to the parser registry and to a packet's parser at run time: the registry is the
  one the library ships.
- `send` of `ModbusRtuStream`, with its RS-485 echo and `_drain`, and a port that itself
  fails: `receive()` is modelled on a port that gives bytes or is silent.
- `ModbusRtuRequest` and `ModbusRtuResponse`: the same shape as `ModbusRtuPacket`, with a
  parser whose laws are those of `PduLaws`.
- `ModbusServerSimulator.reset()`, manual accept mode, and the certificate record.
- `RequestFactory` and the arguments of `send_request()`: any PDU may be sent instead.
- `violations()` as a list of findings: conformity is a predicate per class, and only for
  the requests the server dispatches and their responses.
- A TCP packet, its header and its PDU are values, so two packets that share one header object
  are not modelled; nor is a PDU whose function code is changed after construction.
- Times are real numbers.
- TcpStream.ModbusTcpStream.ReceivePdu: with a negative `frag_size` it is specified for an
  empty PDU alone, and so are `receive()` and the receiver's `run_once()` where no PDU byte
  is to be read. For any other the loop in the source does not end, as
  `TcpStream.ModbusTcpStream.ReceiveChunk` shows of each turn.
- Pdu.Len: for an FC1 or FC2 response built with a negative byte count `__len__` raises
  `struct.error` in the source; here it is a number. Serializing it fails in both.
