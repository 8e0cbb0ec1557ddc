# Cellular relay: SMS decoding, IPC codec and AT line service

This project is a Dafny model of the sequential core of a Raspberry-Pi cellular relay daemon. The daemon talks AT commands to a GSM modem over a serial port, decodes incoming text messages, and exchanges commands and prompts with a front-end over a pipe. Three components are modelled:

- **`SmsPdu` and `Sms`** (`uart_service/src/sms.cpp`) decode an SMS-DELIVER PDU given as a hex string. The method `ParsePdu` walks the PDU with a cursor, exactly as the `SMS::SMS(pdu)` constructor does. Each helper loop is a method proved equal to a specification function (recursive for the semi-octet digits, the UCS2 re-encoding and the timestamp swap, a sequence comprehension for the hex bytes and the GSM 7-bit septets):
  - the hex-to-bytes conversion;
  - semi-octet (nibble-swapped BCD) digits;
  - GSM 7-bit unpacking (3GPP TS 23.038, section 6.1.2.1.1);
  - UCS2 to UTF-8 re-encoding (RFC 3629, section 3, one- to three-byte forms);
  - the timestamp nibble swap.

  A reference encoder `EncodePdu` builds a PDU from its fields. `DeliverRoundTrip` proves what decoding that PDU gives: the SMSC, the sender and the timestamp come back as encoded, and the content is the UCS2 or GSM 7-bit decoding of the user data for coding groups 0x08 and 0x00; groups 0x04 and 0x0C give the parse error. The first octet, the PID and the address-type octets are never read back; `SkippedOctetIgnored` shows that the first octet and the PID do not affect the result.
- **`Ipc`** (`utils/src/serial_interface.cpp`) models the pipe protocol between front-end and service:
  - the message `Command{at_command, expected?} | Prompt{text}`;
  - its serialiser (`operator<<`, `to_string`), `message()` and `Command::verify`;
  - the character-level parser `parse`, proved against `ParseSpec` and related to the serialiser by a round trip.
- **`AtService`** (`uart_service/src/service.cpp`) is a `Service` class whose fields are:
  - the bytes still to arrive on the serial port;
  - the log of bytes written to the serial port;
  - the log of messages sent on the pipe;
  - the FIFO of pending front-end commands.

  Its methods model the response scanner of `send_command_get_respond` (a held-'O' state machine cut at "OK"), the line assembly and classification of `loop()`, and `frontend_request_handler`. Each method is proved to produce the state given by a specification function, and lemmas state what those functions promise.

Four behaviours of the code are kept as they are:
- `decodeTimestamp` never inserts separators. Its index is always even, while the separator tests compare it with odd values.
- `incoming.clear()` in `loop()` only resets stream flags. Every dispatched line is therefore the whole buffer accumulated so far.
- The `AT+CMGR=` query carries the suffix that starts at the `"SM",` marker, marker included.
- The content is decoded twice, and both passes give the same value.

The serial port is a finite sequence of received characters. A read timeout is the sequence running out. Received values such as 0, 4 and 26 are ordinary characters.

## Model

| member | source | states |
|---|---|---|
| SmsPdu.HexDigitValue | uart_service/src/sms.cpp:12 | a hex digit's base-16 value is below 16 |
| SmsPdu.HexDigit | uart_service/src/sms.cpp:12 | the digit for a value below 16 is a hex digit that reads back as that value |
| SmsPdu.ChunkValue | uart_service/src/sms.cpp:12 | one or two hex characters read as a value below 256 |
| SmsPdu.HexByteAt | uart_service/src/sms.cpp:12 | the octet read at a position is below 256 |
| SmsPdu.HexByteChunk | uart_service/src/sms.cpp:12 | the octet at a position is the base-16 value of the two characters there |
| SmsPdu.HexBytes | uart_service/src/sms.cpp:7-15 | a hex string yields (length+1)/2 bytes, so half the length for even length |
| SmsPdu.HexToBytes | uart_service/src/sms.cpp:7-15 | the push_back loop produces exactly HexBytes(hex) |
| SmsPdu.HexBytesAt | uart_service/src/sms.cpp:10-13 | byte k is the base-16 value of characters 2k and 2k+1 |
| SmsPdu.ByteHex | uart_service/src/sms.cpp:12 | the two-digit hex form of a byte reads back as that byte |
| SmsPdu.ToHex | uart_service/src/sms.cpp:7-15 | the reference hex encoder gives two hex digits per byte |
| SmsPdu.ToHexAt | uart_service/src/sms.cpp:10-13 | characters 2k and 2k+1 of the encoding are byte k's hex pair |
| SmsPdu.HexRoundTripAt | uart_service/src/sms.cpp:7-15 | converting the encoding back gives byte k at index k |
| SmsPdu.HexRoundTrip | uart_service/src/sms.cpp:7-15 | hex-to-bytes inverts the hex encoding for every byte sequence |
| SmsPdu.SemiOctet | uart_service/src/sms.cpp:17-29 | the result has at most `digits` characters and is a prefix of the swapped-pair digit string |
| SmsPdu.DecodeSemiOctet | uart_service/src/sms.cpp:17-29 | the loop that swaps each pair, drops an 'F' filler and then truncates computes SemiOctet |
| SmsPdu.DigitsBeforeConcat | uart_service/src/sms.cpp:20-25 | the swapped digits of a concatenation are the concatenation of the swapped digits |
| SmsPdu.DigitsBeforeLength | uart_service/src/sms.cpp:20-25 | m pairs give at most 2m digits, and exactly 2m when no pair starts with 'F' |
| SmsPdu.SemiOctetLength | uart_service/src/sms.cpp:17-29 | for even-length input, the output length is at most the smaller of digits and the input length |
| SmsPdu.EncodeSemiOctet | uart_service/src/sms.cpp:17-29 | the reference semi-octet encoder pads to an even number of characters |
| SmsPdu.EncodedDigits | uart_service/src/sms.cpp:20-25 | swapping the pairs of an encoding without 'F' digits gives the digits back |
| SmsPdu.SemiOctetRoundTrip | uart_service/src/sms.cpp:17-29 | decoding the semi-octet encoding of 'F'-free digits with their count gives those digits |
| SmsPdu.SemiOctetExamples | uart_service/src/sms.cpp:17-29 | "21436587" gives "12345678" and "21F3" with 3 digits gives "123" |
| SmsPdu.Unpack | uart_service/src/sms.cpp:40-44 | each unpacked character is below 0x80 |
| SmsPdu.Septet | uart_service/src/sms.cpp:38-44 | septet i is below 0x80 |
| SmsPdu.Gsm7 | uart_service/src/sms.cpp:31-48 | decoding n septets gives exactly n characters, each below 0x80 (requires byte 7(n-1)/8 to exist) |
| SmsPdu.DecodeGsm7 | uart_service/src/sms.cpp:31-48 | the septet loop computes Gsm7(data, n) |
| SmsPdu.Pack7 | uart_service/src/sms.cpp:31-48 | the reference GSM 7-bit packer produces ceil(7n/8) bytes |
| SmsPdu.SeptetIndex | uart_service/src/sms.cpp:38-39 | how byte index and bit offset of septet i relate to the packer's septet indices |
| SmsPdu.UnpackCombined | uart_service/src/sms.cpp:40-44 | unpacking at an offset recovers a septet that was combined into the packed bytes at that offset |
| SmsPdu.PackedAt | uart_service/src/sms.cpp:38-44 | packed byte j combines septets 8j/7 and 8j/7+1 at shift 8j mod 7 |
| SmsPdu.PackedBounds | uart_service/src/sms.cpp:38-43 | septet i of n lies inside the packed bytes, and so does its second byte when the offset is above 1 |
| SmsPdu.SeptetFromBytes | uart_service/src/sms.cpp:38-44 | the bytes around a septet's position determine the septet |
| SmsPdu.SeptetOfPacked | uart_service/src/sms.cpp:31-48 | septet i of the packed form of 7-bit text is character i |
| SmsPdu.Gsm7RoundTrip | uart_service/src/sms.cpp:31-48 | unpacking as many septets as s has from the packed form of 7-bit text s gives s |
| SmsPdu.EncodeUnit | uart_service/src/sms.cpp:55-70 | a unit below 0x80 is one byte; below 0x800 it is a lead byte in 0xC0..0xDF and one continuation; otherwise a lead in 0xE0..0xEF and two continuations |
| SmsPdu.Units | uart_service/src/sms.cpp:53-55 | a byte sequence holds half its length in big-endian 16-bit units |
| SmsPdu.PushUnit | uart_service/src/sms.cpp:56-70 | the per-unit branch appends the unit's encoding to the output |
| SmsPdu.DecodeUcs2 | uart_service/src/sms.cpp:50-73 | the unit loop produces Ucs2(data), the concatenation of the per-unit encodings |
| SmsPdu.OneByteForm | uart_service/src/sms.cpp:56-58 | a one-byte form is the unit itself |
| SmsPdu.TwoByteForm | uart_service/src/sms.cpp:60-64 | the two-byte form's payload bits give the unit back |
| SmsPdu.ThreeByteForm | uart_service/src/sms.cpp:65-70 | the three-byte form's payload bits give the unit back |
| SmsPdu.DecodeEncodedUnit | uart_service/src/sms.cpp:55-70 | a reference UTF-8 decoder reads one encoded unit and continues with the rest |
| SmsPdu.Ucs2RoundTrip | uart_service/src/sms.cpp:50-73 | UTF-8 decoding of the output gives exactly the big-endian units of the input, surrogates included |
| SmsPdu.Ucs2IgnoresOddByte | uart_service/src/sms.cpp:53 | a trailing odd byte does not change the output |
| SmsPdu.DecodeTimestamp | uart_service/src/sms.cpp:75-92 | the swap loop, whose separator branches never fire, computes SwapPairs(hex) |
| SmsPdu.TimestampIsPairSwap | uart_service/src/sms.cpp:80-90 | for even-length input, the output has the same length, with characters 2k and 2k+1 exchanged |
| SmsPdu.TimestampAddsNoSeparator | uart_service/src/sms.cpp:84-89 | every output character occurs in the input, so no '/', ',' or ':' is ever inserted |
| SmsPdu.SwapPairsInvolution | uart_service/src/sms.cpp:75-92 | swapping the pairs twice restores an even-length input |
| Sms.OctetAt | uart_service/src/sms.cpp:100 | a length octet read from the PDU is below 256 |
| Sms.ParsePdu | uart_service/src/sms.cpp:95-167 | the constructor's cursor walk yields DecodePdu(pdu): the decoded record, or the parse error |
| Sms.ReadSmsc | uart_service/src/sms.cpp:99-106 | the SMSC takes 2+2·smscLen characters; it is decoded only when smscLen > 0, after the type byte, with (smscLen-1)·2 digits |
| Sms.ReadSender | uart_service/src/sms.cpp:111-121 | the sender takes (len+1)/2·2 characters after the length and type bytes and is truncated to len digits |
| Sms.DecodeUserData | uart_service/src/sms.cpp:139-166 | both decode passes give UCS2 content for coding 0x08 and GSM7 content with UDL septets for 0x00; any other coding is reported |
| Sms.DcsDispatch | uart_service/src/sms.cpp:141-155 | decoding fails iff dcs & 0x0C is 0x04 or 0x0C, with the error carrying the raw PDU; 0x08 decodes all user data as UCS2 ignoring UDL; 0x00 gives exactly UDL 7-bit characters |
| Sms.CharacterSetIsMask | uart_service/src/sms.cpp:141 | the coding group computed on numbers equals dcs & 0x0C |
| Sms.WithOctet | uart_service/src/sms.cpp:108-109 | replacing one octet keeps the PDU's length |
| Sms.SkippedOutside | uart_service/src/sms.cpp:108-124 | the first octet and PID octet lie outside every field the decoder reads |
| Sms.SameLengths | uart_service/src/sms.cpp:100-112 | changing a skipped octet leaves both length octets unchanged |
| Sms.SameCoding | uart_service/src/sms.cpp:126-139 | changing a skipped octet leaves DCS, UDL and user data unchanged |
| Sms.SameSmsc | uart_service/src/sms.cpp:99-106 | an octet outside the SMSC digits does not change them |
| Sms.SameSender | uart_service/src/sms.cpp:118-121 | an octet outside the sender digits does not change them |
| Sms.SameTimestamp | uart_service/src/sms.cpp:130-132 | an octet before the timestamp does not change it |
| Sms.SameDecode | uart_service/src/sms.cpp:95-167 | two PDUs with the same fields decode alike |
| Sms.SkippedOctetIgnored | uart_service/src/sms.cpp:108-109 | changing the first-octet or PID byte never changes the decoded record or whether decoding fails |
| Sms.LengthHex | uart_service/src/sms.cpp:100 | the reference encoder's length octet reads back as the length mod 256 |
| Sms.SmscBlockShape | uart_service/src/sms.cpp:99-106 | the encoded SMSC block is 2+2n characters with its length octet first and the digits after the type byte |
| Sms.SmscParts | uart_service/src/sms.cpp:99-106 | in an encoded PDU, the SMSC length, digits and the rest lie where the decoder looks |
| Sms.HeaderTails | uart_service/src/sms.cpp:108-116 | after the first octet come the sender length and then the sender block |
| Sms.BodyTails | uart_service/src/sms.cpp:118-139 | after the sender lie the digits, PID, DCS, timestamp, UDL and user data, at the decoder's offsets |
| Sms.EncodePduEncodes | uart_service/src/sms.cpp:99-139 | the reference encoder lays every field out at the decoder's offsets |
| Sms.HeaderLayout | uart_service/src/sms.cpp:100-112 | matching length octets give a readable header with those lengths |
| Sms.ReadsCoding | uart_service/src/sms.cpp:126-139 | encoded DCS, UDL and user data read back as written |
| Sms.ReadsSmsc | uart_service/src/sms.cpp:101-105 | an encoded SMSC number without padding digits reads back as written |
| Sms.PaddedRoundTrip | uart_service/src/sms.cpp:17-29 | semi-octet decoding with the padded length undoes the encoding |
| Sms.ReadsSender | uart_service/src/sms.cpp:118-121 | an encoded sender number reads back as written |
| Sms.ReadsTimestamp | uart_service/src/sms.cpp:130-132 | a pair-swapped 14-digit timestamp reads back as written |
| Sms.EncodedLengths | uart_service/src/sms.cpp:100-112 | an encoded PDU's length octets are the SMSC octet count and the sender digit count |
| Sms.EncodedCoding | uart_service/src/sms.cpp:126-139 | an encoded PDU is well formed and its DCS, UDL and user data are as encoded |
| Sms.EncodedText | uart_service/src/sms.cpp:99-132 | an encoded PDU's SMSC, sender and timestamp decode to the encoded ones |
| Sms.DecodeFields | uart_service/src/sms.cpp:95-167 | a PDU whose fields read as a record decodes to that record with UCS2 or GSM7 content, or fails carrying the PDU |
| Sms.DeliverRoundTrip | uart_service/src/sms.cpp:95-167 | decoding the encoding of any valid SMS-DELIVER gives its SMSC, sender and timestamp back, with the content decoded by its coding group or the coding error |
| Ipc.TypeValue | utils/include/serial_interface.hpp:9-14 | the type tag of a message is 1 (Command) or 2 (Prompt) |
| Ipc.SerialisedOnOneLine | utils/src/serial_interface.cpp:9-20 | operator<< writes a transmittable message as a non-empty text with no newline, so one message is one line |
| Ipc.MessageIsTextWithoutExpectation | utils/src/serial_interface.cpp:25-39 | to_string is message() for a prompt or an unexpecting command, and message() + ";" + expected otherwise |
| Ipc.Verify | utils/src/serial_interface.cpp:41-59 | no error iff there is no expectation or the response equals it; otherwise UnexpectedATResponse(command, expected, response) |
| Ipc.DigitOf | utils/src/serial_interface.cpp:78 | a digit's value is below 10 |
| Ipc.SkipSpace | utils/src/serial_interface.cpp:78 | extraction skips exactly the leading white space |
| Ipc.DigitEnd | utils/src/serial_interface.cpp:78 | the tag's digits run to the first non-digit |
| Ipc.ExtractUnsigned | utils/src/serial_interface.cpp:77-79 | `is >> type` reads ReadUnsigned(s): space, optional sign, digits, failing on no digits or values above 2^32-1 |
| Ipc.SkipWhitespace | utils/src/serial_interface.cpp:78 | the white-space loop stops where SkipSpace does |
| Ipc.ReadDigits | utils/src/serial_interface.cpp:78 | the digit loop stops where DigitEnd does and accumulates the decimal value |
| Ipc.DecimalStep | utils/src/serial_interface.cpp:78 | appending a digit multiplies the value by ten and adds the digit |
| Ipc.ReadsTag | utils/src/serial_interface.cpp:17-82 | a written tag digit followed by a non-digit reads back as that tag, consuming one character |
| Ipc.FieldEnd | utils/src/serial_interface.cpp:90-104 | a field scan stops at the end, at '\n', or at ';' in the command field |
| Ipc.Parse | utils/src/serial_interface.cpp:75-122 | parse yields ParseSpec(s): a ParserError when the tag fails or is not 1 or 2, otherwise the command or prompt and the unread rest |
| Ipc.ParseCommand | utils/src/serial_interface.cpp:86-112 | the command is read up to ';' or '\n'; only a ';' stop reads an expectation up to '\n' |
| Ipc.ReadLine | utils/src/serial_interface.cpp:99-118 | the line is read up to '\n' or end of stream, and the '\n' is consumed |
| Ipc.FieldEndOf | utils/src/serial_interface.cpp:90-104 | a field free of stop characters and followed by a stop ends exactly after itself |
| Ipc.RoundTrip | utils/src/serial_interface.cpp:9-122 | parsing a serialised transmittable message (no ';' or '\n' in the command, no '\n' in the expectation or prompt, no leading digit) followed by end of stream or '\n' gives the message back and consumes the '\n' |
| Ipc.CommandWithExpectationTrip | utils/src/serial_interface.cpp:25-107 | a command with an expectation, which may contain ';', survives serialise then parse |
| Ipc.CommandAloneTrip | utils/src/serial_interface.cpp:25-111 | a command without an expectation survives serialise then parse |
| Ipc.PromptTrip | utils/src/serial_interface.cpp:70-118 | a prompt, semicolons included, survives serialise then parse |
| Ipc.WithTag | utils/src/serial_interface.cpp:84-118 | tag 1 selects the command branch and tag 2 the prompt branch, each reading after the tag |
| Ipc.CommandWithExpectation | utils/src/serial_interface.cpp:86-107 | "at;e" up to a newline parses as Command(at, e) |
| Ipc.ExpectationAfter | utils/src/serial_interface.cpp:96-104 | after ';' the expectation runs to the newline, which is consumed |
| Ipc.Field | utils/src/serial_interface.cpp:90-95 | a stop-free field followed by a stop is read exactly |
| Ipc.Semicolon | utils/src/serial_interface.cpp:96 | a ';' at the cursor is the stop character |
| Ipc.CommandAlone | utils/src/serial_interface.cpp:109-111 | "at" up to a newline or end of stream parses as Command(at) with no expectation |
| Ipc.PromptLine | utils/src/serial_interface.cpp:113-118 | the prompt is the rest of the line verbatim |
| Ipc.RestAfter | utils/src/serial_interface.cpp:101-116 | the terminating newline is consumed and nothing after it is read |
| Ipc.AbsentRejected | utils/src/serial_interface.cpp:9-82 | the "0" operator<< writes for an absent message is rejected by the parser |
| Ipc.UnknownTagRejected | utils/src/serial_interface.cpp:119-120 | an extracted tag other than 1 or 2 is rejected |
| AtService.CStr | uart_service/src/service.cpp:142 | what `c_str()` passes on is the string up to its first NUL |
| AtService.FindFrom | uart_service/src/service.cpp:79-90 | `find` returns the first occurrence at or after the start, or none when there is none |
| AtService.RemoveCr | uart_service/src/service.cpp:169-172 | the result is no longer than the input and holds no '\r' |
| AtService.ScanFrom | uart_service/src/service.cpp:152-175 | the scan never consumes more bytes than are available |
| AtService.ScanBound | uart_service/src/service.cpp:152-175 | the answer is never longer than the bytes consumed |
| AtService.ScanWithoutO | uart_service/src/service.cpp:169-172 | without any 'O', the scan consumes everything and returns it minus the '\r' characters |
| AtService.ScanStopsAtOk | uart_service/src/service.cpp:157-164 | "OK" ends the scan; neither 'O' nor 'K' is emitted and nothing after it is read |
| AtService.HeldOIsLost | uart_service/src/service.cpp:154-175 | an 'O' still held when the bytes run out is not in the answer |
| AtService.DoubleOIsKept | uart_service/src/service.cpp:161-167 | "OOK" does not end the scan and is answered verbatim |
| AtService.SendSpec | uart_service/src/service.cpp:139-179 | an exchange never adds serial input |
| AtService.SendWritesAndScans | uart_service/src/service.cpp:139-179 | the command up to NUL is written with CR LF; the answer is None iff nothing arrives after the flush, otherwise the scan of the bytes, which are consumed exactly |
| AtService.DispatchSpec | uart_service/src/service.cpp:79-116 | dispatching a line never adds serial input |
| AtService.QueueLinePopsFront | uart_service/src/service.cpp:96-111 | a queue-branch line pops exactly the front command, even when verify throws; the line is relayed as a prompt iff verify passes |
| AtService.QueueLineWithEmptyQueue | uart_service/src/service.cpp:112-115 | with an empty queue a queue-branch line changes nothing |
| AtService.NoticeQueriesMessage | uart_service/src/service.cpp:79-89 | a "+CMTI:" line sends "AT+CMGR=" plus the suffix from the "SM", marker, and nothing without the marker; queue and pipe are untouched |
| AtService.RingSendsPrompt | uart_service/src/service.cpp:90-93 | an "ATA" line that is not a notice only sends the prompt "Incoming phone call" |
| AtService.QueueIsFifo | uart_service/src/service.cpp:96-191 | a handled command joins the back of the queue, behind the one the next line answers |
| AtService.HandledCommandAnswered | uart_service/src/service.cpp:96-192 | with an empty queue, the next queue-branch line answers the handled command and is relayed iff verify passes |
| AtService.RunFrom | uart_service/src/service.cpp:67-123 | the loop runs until the serial input is exhausted |
| AtService.BufferOnlyGrows | uart_service/src/service.cpp:75-122 | the line buffer is never emptied: it only grows |
| AtService.NoCarriageReturnStored | uart_service/src/service.cpp:118-121 | '\r' is never stored in the line buffer |
| AtService.StoreStep | uart_service/src/service.cpp:118-122 | a byte that does not complete CR LF is stored, unless it is '\r', and becomes the last byte |
| AtService.NoLineWithoutCrLf | uart_service/src/service.cpp:69-122 | bytes without CR LF are appended, minus '\r', and nothing is dispatched |
| AtService.LineDispatch | uart_service/src/service.cpp:75-122 | the '\n' of a CR LF dispatches the whole accumulated buffer, which is kept, and the '\n' is not stored |
| AtService.Service.constructor | uart_service/src/service.cpp:23-25 | a service starts with the given serial input and empty logs and queue |
| AtService.Service.SendCommandGetRespond | uart_service/src/service.cpp:139-179 | the method's new state and answer are those of SendSpec |
| AtService.Service.Receive | uart_service/src/serial.cpp:247-270 | a receive returns the next byte and removes it from the input |
| AtService.Service.ScanReply | uart_service/src/service.cpp:150-176 | the scanning loop returns ScanFrom's answer and consumes exactly its bytes |
| AtService.Service.Dispatch | uart_service/src/service.cpp:77-116 | the classification of one line yields DispatchSpec's state |
| AtService.Service.Loop | uart_service/src/service.cpp:60-125 | the three setup commands are sent, then bytes are read until the input ends, giving LoopSpec's state |
| AtService.Service.FrontendRequestHandler | uart_service/src/service.cpp:181-192 | a prompt is ignored; a command's message() up to NUL is written with CR LF and the command is queued at the back |

## Left out

- The serial port driver (`uart_service/src/serial.cpp`) is not modelled: GPIO, termios, board detection, and the poll and read calls. The port is the sequence of characters still to arrive. `println` appends CR LF to the output log, `receive` takes the next character, and `flush` drops the characters pending at the call.
- `flush` discards whatever has arrived by then, which depends on timing. `SendSpec` takes the number of discarded characters as the parameter `stale`, and every call in the model passes 0: the three setup commands in `Loop` and the AT+CMGR query in `DispatchSpec` and `Service.Dispatch`. The model never lets a flush discard bytes.
- Threads, the mutex, the atomic stop flag and the listener thread are left out. The queue is one sequential state, and `Loop` runs until the input ends rather than until the stop flag is set.
- The constructor's power-key toggling, its sleeps and its retries until "AT" answers (uart_service/src/service.cpp:31-37) are hardware timing. Only the initial state is modelled.
- The constructor's two plain exchanges are not modelled: `send_command_get_respond("AT", 2000ms)` at uart_service/src/service.cpp:26 and `send_command_get_respond("AT+CREG?", 500ms)` at uart_service/src/service.cpp:41. Each writes a command to the serial port and consumes the modem's reply. `Service.constructor` starts with an empty serial output log, and its `rx` is taken to start after the replies to these exchanges and to the retried "AT" commands.
- `std::chrono` deadlines are modelled as the input running out. While bytes remain, the response scanner and the line loop keep reading.
- The pipe is an output log of messages. Each entry stands for `Serialise(Some(m))` written to the fifo, and the fifo I/O of `cmd_pipe` is left out.
- The `std::cout` logging is left out, as are options loading and the signal handlers.
- `sms_handler` has an empty body, so the answer to the CMGR query is discarded and no PDU is handed to the decoder. Email dispatch, UDH parsing and multi-part reassembly are absent from the code and not modelled.
- Malformed PDUs are outside the model. `std::stoi` and `substr` would throw there, so `WellFormedPdu` is a precondition of `Sms.ParsePdu` and `Sms.DecodePdu`: hex pairs where lengths are read, and every field in range.
- `SmsPdu.Gsm7`: `data[byteIndex]` with an index past the end is undefined behaviour, so `SeptetsInRange` is a precondition.
- Sms.DcsDispatch: the error keeps the raw PDU and the DCS value instead of the `what()` text " cannot recognize DCS field <hex>".
- Sms.DeliverRoundTrip: it covers PDUs built by the reference encoder with an SMSC of at most 500 digits and lengths below 256. Hand-written PDUs are covered by `Sms.SkippedOctetIgnored` and `Sms.DcsDispatch`.
- Ipc.ParseCommand: reading a command at end of stream leaves `ch` uninitialised, which is undefined behaviour. The model treats `ch` as NUL, which gives no expectation. `Ipc.RoundTrip` excludes an empty command without an expectation at end of stream for this reason.
- Ipc.ExtractUnsigned: a leading '-' negates the value modulo 2^32, as `num_get` does for unsigned targets. No lemma states that wrap-around separately.
- Ipc.Verify: the throw is modelled as the returned error value. The caller in `loop()` catches it and only logs it.
- `Command::message` and `Prompt::message` are the function `MessageText`. `Ipc.MessageIsTextWithoutExpectation` states how it relates to `to_string`.
- `error.cpp` and `error.hpp` are left out. Errors are Dafny datatypes (`ParserError`, `UnexpectedATResponse`, `SmsParseError`).
