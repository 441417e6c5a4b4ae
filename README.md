# aurora lights, modelled in Dafny

A model of the control core of SIGMusic's "aurora" networked lights. A base station talks to the lights over an nRF24 radio. It keeps a shared colour table of 256 entries and a liveness bitmap. Clients reach it through a WebSocket server or a connection-oriented UDP server.

The model covers these parts, one Dafny module each:

- **Common**, **Text** (`common.dfy`, `text.dfy`):
  - bytes, colours and the number of ids;
  - the string primitives the servers rely on: `strstr`, the `%Ns`, `%u`, `%hhu` and `%02x` conversions of `sscanf`, `getline` on a delimiter, and `%d` formatting.
- **Network** (`network.h`, and the same macros in `manager/manager.py`):
  - the hashed 40-bit "SIGM" radio address;
  - the six-byte packet with its `HEADER`.
- **PlainNetwork** (`src/network.h`):
  - the unhashed address;
  - the command table, where each response is its request plus one;
  - the four-byte packet.
- **SchedulerRadio** (`software/scheduler/radio.py`): the checked address and the in-order frame transmission.
- **LightFrame** (`manager/light.py`): the eight-byte Bluetooth frame with its checksum.
- **PyManager**, **CManager**: the 2015 base stations.
  - `build_packet`/`parse_packet`;
  - the Python discovery loop, which appends to `lights`;
  - the C++ discovery sweep, which never clears an entry.
- **RadioDriver**, **ConnectedBitmap**, **RadioLink** (`src/manager/radio.cpp`, `src/manager/utils.cpp`):
  - the radio chip and the lights as an oracle;
  - the packed liveness bitmap;
  - the class `Radio` over the shared arrays: discovery sweep, `send`/`receive`, `setRGB`, temperature and uptime queries, and one pass of the frame loop.
- **CommandServer** (`src/manager/server.cpp`): `setrgb`/`ping` dispatch and subprotocol selection.
- **BulkColorServer** (`software/wsserver/server.cpp`):
  - `ping` echo and the comma-separated `rrggbb` list;
  - the per-client message loop.
- **WsHandshake** (`src/manager/wstransport.cpp`, `connect`):
  - the opening-handshake checks;
  - the 101 and 400 answers;
  - the accept token of section 4.2.2 of RFC 6455.
- **WsFrames** (`src/manager/wstransport.cpp`, `recv` and `recv_frame`):
  - frame-header decoding;
  - the 7-, 16- and 64-bit length rule;
  - unmasking;
  - the fragmentation rules of sections 5.2 to 5.4 of RFC 6455.
- **UdpAddress**, **UdpMux**, **UdpServerTransport**, **UdpManagerTransport** (both `udptransport.cpp` revisions):
  - the peer table from (address bytes, port) to synthetic ids 1024, 1025, …;
  - the per-id datagram queues;
  - `accept`, `connect`, `disconnect`, `recv`, `send`, `is_open` and `extract_address_port`.

Things outside the program are taken as given and become parameters or oracle fields:

- the radio chip;
- the connection's byte stream;
- the sequence of arrivals on a UDP socket;
- SHA-1 and base64;
- the uninitialised memory that some of the code reads.

Where the code keeps state in objects, arrays, maps or lists that it updates in place, the model is a class with `modifies` clauses. Examples are `Radio`, the two UDP transports, the servers, and the caller's buffer in `recv`. Each method is proved against a function that specifies it, and the functions carry the lemmas.

## Model

| member | source | states |
|---|---|---|
| Common.XorBitsInvolution | network.h:8 | xor-ing the same bits twice gives back the first operand, bit by bit |
| Common.XorInvolution | network.h:8 | on bytes, `(a ^ m) ^ m == a` and `a ^ m` is a byte |
| Network.HashInvolution | network.h:8 | `HASH(HASH(a)) == a` for every byte `a` (the Python `HASH` of manager/manager.py:9-11 is the same function) |
| Network.HashInjective | network.h:8 | the hash is one-to-one on bytes |
| Network.RfAddress | network.h:9 | the address is below 2^40, its upper 32 bits are "SIGM" and its low byte is `HASH(endpoint & 0xFF)` (as the Python `RF_ADDRESS` of manager/manager.py:13-15 computes it too) |
| Network.RfAddressInjective | network.h:9-11 | distinct ids in 0..255 (among them the base station 0x00 and the multicast id 0xFF) get distinct addresses |
| Network.RfAddressLowByte | network.h:9 | only the endpoint's low byte selects the address |
| Network.Htons | network.h:13 | `htons` on a little-endian host swaps the two bytes of a 16-bit value |
| Network.HtonsInvolution | network.h:13 | swapping twice restores the value |
| Network.PacketBytes | network.h:23-27 | `packet_t` occupies six bytes: the header low byte first, the command, the three data bytes |
| Network.PacketRoundTrip | network.h:23-27 | reading six bytes as a `packet_t` and writing it back are inverse to each other in both directions |
| Network.CHeaderOnTheWire | network.h:13 | the C header `htons(7446)` travels as 0x1D then 0x16 |
| PlainNetwork.RfAddress | src/network.h:11 | the unhashed address is below 2^40, has upper bits "SIGM" and low byte `endpoint mod 256` |
| PlainNetwork.RfAddressInjective | src/network.h:11 | distinct ids in 0..255 get distinct unhashed addresses |
| PlainNetwork.CommandOf | src/network.h:23-33 | a byte is recognised only as the command whose code it is |
| PlainNetwork.CommandCodeRoundTrip | src/network.h:23-33 | every command is recognised from its own code, so the nine codes are pairwise distinct |
| PlainNetwork.ResponseCodeFollowsQuery | src/network.h:25-32 | the code of each response (ping, temperature, uptime, version) is its query's code plus one |
| PlainNetwork.PacketBytes | src/network.h:36-39 | `packet_t` is exactly a command byte followed by the three data bytes |
| SchedulerRadio.RfAddress | software/scheduler/radio.py:20-23 | the assertion refuses exactly the endpoints outside 0..255; otherwise the address is "SIGM" followed by the endpoint |
| SchedulerRadio.Payload | software/scheduler/radio.py:73 | a colour becomes a 3-byte payload, the configured payload size |
| SchedulerRadio.TransmitFrame | software/scheduler/radio.py:70-76 | write `i` goes to `RF_ADDRESS(i)` with `colors[i]`, for `i` rising from 0; it completes iff every index is in range, and stops at the first that is not |
| SchedulerRadio.Start | software/scheduler/radio.py:60-63 | `start` sends one frame of the eight placeholder colours of radio.py:6-7: light `i` of 0..7 gets exactly its own colour on `RF_ADDRESS(i)`, and no two writes share an address |
| LightFrame.Frame | manager/light.py:42-45 | the message exists iff each channel is a byte; it is 8 bytes long and starts "SIGM" |
| LightFrame.Decode | manager/light.py:44-45 | light.py only builds frames and has no decoder; this is a reference receiver for the frame built there, written as the partner of its round trip. It accepts a frame only with 8 bytes and the "SIGM" prefix |
| LightFrame.FrameRoundTrip | manager/light.py:44-45 | the receiver decodes exactly the colour that was sent: bytes 4..6 are r, g, b and byte 7 is their sum mod 256 |
| LightFrame.ChecksumDetectsSingleChange | manager/light.py:44 | changing any one colour byte of a frame makes its checksum fail |
| PyManager.BuildPacket | manager/manager.py:40-48 | the packet is built iff the command and three data values are bytes, and it is `PACKET_SIZE` = 6 bytes |
| PyManager.ParsePacket | manager/manager.py:33-38 | the parsed data field has three entries |
| PyManager.BuildParseRoundTrip | manager/manager.py:33-48 | parsing a built packet gives header 7446, the command and the data back |
| PyManager.BuildMatchesStructure | manager/manager.py:40-48 | the Python packet is byte for byte the six-byte `packet_t` holding header 7446 |
| PyManager.HeaderByteOrderDiffers | manager/manager.py:42-43 | the Python manager sends the header as 0x16, 0x1D while the C manager's `htons(7446)` sends 0x1D, 0x16 |
| PyManager.FoundFromMembers | manager/manager.py:76-111 | the sweep appends exactly the ids in range that acknowledged, answered in time and echoed header, ping response and id |
| PyManager.FoundFromAscending | manager/manager.py:76 | the appended ids rise strictly, so none appears twice |
| PyManager.SweepStep | manager/manager.py:76-111 | one iteration appends `i` iff it was found, and the sweep then goes on from `i + 1` |
| PyManager.Manager.constructor | manager/manager.py:55 | the list of lights starts empty and nothing has been written |
| PyManager.Manager.PingAllLights | manager/manager.py:72-111 | `lights` gains exactly the found ids of 1..254 in rising order, and ping packets go to ids 1..254 in order |
| PyManager.Manager.Probe | manager/manager.py:79-106 | an id counts as found iff the write is acknowledged, a response arrives and header, command and echoed id all match |
| PyManager.SweepFromEmpty | manager/manager.py:72-111 | from an empty list one sweep leaves exactly the responding ids, in strictly rising order |
| CManager.PingAllLights | manager/manager.cpp:83-131 | ids 0..254 are pinged in order with `{HEADER, CMD_PING, {0,0,0}}`; `lights[i]` becomes true iff it answered correctly and otherwise keeps its value, so the sweep never clears an entry |
| Text.FindFrom | src/manager/wstransport.cpp:158 | `strstr`: the position found holds the pattern and no earlier position at or after the start does; no position is found only if none holds it |
| Text.ContainsIff | src/manager/wstransport.cpp:158-176 | a header test passes iff the pattern occurs somewhere in the request |
| Text.SkipSpace | src/manager/wstransport.cpp:187 | a conversion skips exactly the leading white space |
| Text.Word | src/manager/wstransport.cpp:187 | `%Ns` takes the longest run of at most N non-blank characters |
| Text.ScanWord | src/manager/wstransport.cpp:187 | `%Ns` succeeds only with 1 to N characters |
| Text.Digits | src/manager/wstransport.cpp:145 | the longest prefix of decimal digits |
| Text.ScanDecimal | src/manager/wstransport.cpp:145 | `%u` succeeds only after consuming at least one character |
| Text.StoreUnsigned | src/manager/wstransport.cpp:145 | what an unsigned conversion stores: a value below the target's width; the number modulo the width up to `ULONG_MAX` (2^32 - 1 on the 32-bit Raspberry Pi), and `ULONG_MAX` modulo the width beyond it, where `strtoul` saturates |
| Text.DecimalString | software/wsserver/server.cpp:139-140 | `%d` of a number gives one or more decimal digits |
| Text.DecimalRoundTrip | software/wsserver/server.cpp:139-140 | reading back the digits `%d` printed gives the number |
| Text.ScanDecimalPrinted | src/manager/server.cpp:74 | a `%u`-style conversion reads back a printed number up to the first non-digit |
| Text.ScanDecimalAfterBlank | src/manager/server.cpp:74 | the same after a blank, as between the fields of a command |
| Text.Split | software/wsserver/server.cpp:127 | `getline` on ',' yields delimiter-free pieces, and none at all only for an empty message |
| Text.SplitJoin | software/wsserver/server.cpp:127 | splitting pieces joined by the delimiter gives the pieces back |
| Text.ScanHexByte | software/wsserver/server.cpp:129 | a `%02x` conversion consumes at least one character |
| Text.HexChar | software/wsserver/server.cpp:129 | a value below 16 is printed as a hex digit that reads back as that value |
| Text.HexByte | software/wsserver/server.cpp:129 | a byte prints as exactly two hex digits |
| Text.ScanHexBytePrinted | software/wsserver/server.cpp:129 | `%02x` reads back the two digits of a byte, whatever follows |
| CommandServer.ShouldConnect | src/manager/server.cpp:53-67 | the connection is accepted iff "nlcp" is among the requested subprotocols, and then "nlcp" is selected |
| CommandServer.ScanUnsignedChar | src/manager/server.cpp:74 | `%hhu` succeeds only after consuming input, and stores the number as `Text.StoreUnsigned` says for 256 values |
| CommandServer.Classify | src/manager/server.cpp:69-95 | a message is a `setrgb` command (good or bad) iff it starts with "setrgb ", and a ping iff it does not but starts with "ping" |
| CommandServer.ScanUnsignedCharPrinted | src/manager/server.cpp:74 | `%hhu` reads back a byte written after a blank |
| CommandServer.ScanUnsignedCharOfNumber | src/manager/server.cpp:74 | `%hhu` of any decimal number: the number modulo 256 up to `ULONG_MAX`, and 255 beyond it, where `strtoul` saturates |
| CommandServer.ScanColorPrinted | src/manager/server.cpp:74 | the last three conversions read back a written colour |
| CommandServer.ScanSetRgbPrinted | src/manager/server.cpp:74 | all four conversions read back the id and colour of a written command |
| CommandServer.SetRgbUnderstood | src/manager/server.cpp:71-82 | `setrgb id r g b` is understood as exactly that id and colour and answered "OK" |
| CommandServer.ShortSetRgbRefused | src/manager/server.cpp:84-87 | a `setrgb` command with only two numbers is refused with invalid arguments |
| CommandServer.ShortColorRefused | src/manager/server.cpp:74 | one number where three are expected makes the scan fail |
| CommandServer.Server.constructor | src/manager/server.cpp:38-40 | the server holds the shared colour table and has sent nothing |
| CommandServer.Server.ProcessMessage | src/manager/server.cpp:69-96 | exactly one reply is sent; a valid `setrgb` replaces only `colors[id]` and every other message leaves the table alone |
| BulkColorServer.ErrorReply | software/wsserver/server.cpp:138-141 | the error text is cut to fit the 50-byte buffer, and 50 bytes are always sent |
| BulkColorServer.HexColor | software/wsserver/server.cpp:129 | a colour is written as six hex digits without a comma |
| BulkColorServer.ScanColorPrinted | software/wsserver/server.cpp:129 | six hex digits scan back to the colour |
| BulkColorServer.ScanAll | software/wsserver/server.cpp:127-129 | every token is scanned on its own, in order |
| BulkColorServer.Apply | software/wsserver/server.cpp:120-146 | the table keeps its 256 entries, and a refused id lies among the ids of the tokens |
| BulkColorServer.ApplyStores | software/wsserver/server.cpp:129-133 | a token that scans is stored at its id before the next token is taken |
| BulkColorServer.Accepted | software/wsserver/server.cpp:127-146 | no more tokens are accepted than there are |
| BulkColorServer.AcceptedMeaning | software/wsserver/server.cpp:127-146 | the accepted tokens all scan and fit the table, and the first token left over either does not scan or has no entry |
| BulkColorServer.AcceptedFits | software/wsserver/server.cpp:127-146 | the accepted tokens fit the table from the first id on |
| BulkColorServer.AcceptedToken | software/wsserver/server.cpp:129 | every accepted token scans |
| BulkColorServer.AcceptedStops | software/wsserver/server.cpp:135-143 | the first token not accepted does not scan or has no entry |
| BulkColorServer.ApplyEffect | software/wsserver/server.cpp:120-148 | token k lands at id k+1 for the accepted tokens; every other entry, index 0 among them, keeps its colour (no rollback); the refused id is the first token left over |
| BulkColorServer.ColorTokens | software/wsserver/server.cpp:127 | one six-digit token per colour |
| BulkColorServer.ColorTokensScan | software/wsserver/server.cpp:127-129 | a comma-joined list of colours splits into its tokens, and each scans back to its colour |
| BulkColorServer.AllAccepted | software/wsserver/server.cpp:127-146 | when every token scans and fits, all are accepted |
| BulkColorServer.ApplyAllScanned | software/wsserver/server.cpp:120-148 | such a list is stored whole from the first id on, and nothing is refused |
| BulkColorServer.ColorsMessageRoundTrip | software/wsserver/server.cpp:120-148 | a list of up to 255 colours written as clients write it sets lights 1..n to exactly those colours, leaves the rest and draws no error |
| BulkColorServer.Process | software/wsserver/server.cpp:110-150 | the table keeps its 256 entries |
| BulkColorServer.PingEchoed | software/wsserver/server.cpp:114-116 | a message starting "ping" is echoed whole and leaves the table untouched |
| BulkColorServer.FirstTokenRefused | software/wsserver/server.cpp:135-143 | a first token that does not scan changes nothing and draws the error for ID 1 |
| BulkColorServer.Handle | software/wsserver/server.cpp:98-103 | a receive keeps the table size |
| BulkColorServer.Session | software/wsserver/server.cpp:96-104 | the session keeps the table size |
| BulkColorServer.SessionSnoc | software/wsserver/server.cpp:96-104 | the loop handles message i on the table the earlier messages left |
| BulkColorServer.SessionConcat | software/wsserver/server.cpp:96-104 | a session in two parts is the second part run on the first part's table, with the replies in order |
| BulkColorServer.FailedReceiveSkipped | software/wsserver/server.cpp:100-103 | a failed receive (-1) changes no colour and draws no reply |
| BulkColorServer.Server.constructor | software/wsserver/server.cpp:26-28 | the server holds the shared table and has sent nothing |
| BulkColorServer.Server.ProcessMessage | software/wsserver/server.cpp:110-150 | the loop's table and replies are those of `Process` |
| BulkColorServer.Server.HandleReceived | software/wsserver/server.cpp:98-103 | one receive: a message is processed, a failure skipped |
| BulkColorServer.Server.HandleClient | software/wsserver/server.cpp:80-108 | a failed handshake processes nothing; otherwise the messages are processed in order as `Session` says |
| BulkColorServer.AsWrittenStoreIds | software/wsserver/server.cpp:120-146 | the loop as written stores one id per leading token that scans |
| BulkColorServer.AsWrittenStoresEveryToken | software/wsserver/server.cpp:120-146 | as written, token k is stored at id k+1 with no bound |
| BulkColorServer.AsWrittenWritesPastTable | software/wsserver/server.cpp:131-133 | 256 colours make the loop as written store to `colors[256]`, past the table |
| BulkColorServer.AsWrittenPastTable | software/wsserver/server.cpp:131-133 | any 256 tokens that scan reach id 256 |
| BulkColorServer.BoundedRefusesPastTable | software/wsserver/server.cpp:131-143 | the bounded loop refuses id 256 of that message instead |
| BulkColorServer.RefusedAtTableEnd | software/wsserver/server.cpp:131-143 | with 256 scanning tokens the first 255 are stored and id 256 is refused |
| BulkColorServer.AcceptedPrefix | software/wsserver/server.cpp:127-146 | acceptance stops at the end of the table |
| WsHandshake.AnswersDiffer | src/manager/wstransport.cpp:228-256 | the 101 answer starts with status 101, the 400 answer with status 400, and the two texts never coincide |
| WsHandshake.ScanLiteral | src/manager/wstransport.cpp:145 | a literal run of the format matches only as a prefix, and what is left is the rest of the input |
| WsHandshake.ScanRequestLine | src/manager/wstransport.cpp:145-148 | the minor version is converted only after the major one was |
| WsHandshake.StoredUint | src/manager/wstransport.cpp:145 | `%u` into an `unsigned int` on the 32-bit target: a number below 2^32 is kept as it is, and a larger one saturates to 4294967295 |
| WsHandshake.ScanVersion | src/manager/wstransport.cpp:145 | the `%u.%u` part converts the minor number only after the major one, and both numbers read are below 2^32 |
| WsHandshake.HeaderWord | src/manager/wstransport.cpp:179-208 | a header word is found exactly when the request contains the header's pattern |
| WsHandshake.Connect | src/manager/wstransport.cpp:130-261 | returns 0 or -1; 0 exactly when no check failed and the answer was sent; the 400 answer exactly when some check failed |
| WsHandshake.ScanRequestLinePrinted | src/manager/wstransport.cpp:145-148 | a request line "GET / HTTP/M.N" followed by anything scans back to M and N as stored into `unsigned int`s |
| WsHandshake.ScanVersionPrinted | src/manager/wstransport.cpp:145 | printed decimal numbers around a dot scan back to themselves |
| WsHandshake.FindFirst | src/manager/wstransport.cpp:158 | `strstr` finds the first occurrence: one placed with no earlier occurrence before it |
| WsHandshake.FindField | src/manager/wstransport.cpp:179 | in a well-formed request the search for a header's pattern lands on that header's line |
| WsHandshake.ContainsLine | src/manager/wstransport.cpp:163-176 | a request holding a header line contains that line with its line break |
| WsHandshake.ContainsPattern | src/manager/wstransport.cpp:158 | a request holding a header line contains that header's pattern |
| WsHandshake.ScanValue | src/manager/wstransport.cpp:187 | a value of non-blank characters followed by a line break is read by `%Ns` as its first N characters |
| WsHandshake.ClientHeadersFound | src/manager/wstransport.cpp:158-176 | a client's request built as RFC 6455 section 4.1 describes contains the Host, Upgrade, Connection and Version lines looked for |
| WsHandshake.ClientValuesRead | src/manager/wstransport.cpp:179-208 | in such a request the subprotocol and key words read are the first 4 and 24 characters of the values sent |
| WsHandshake.ClientRequestProblems | src/manager/wstransport.cpp:145-208 | for such a request the only possible complaints are an HTTP version that reads, after narrowing to `unsigned int`, as below 1.1 and a subprotocol not starting with "nlcp" |
| WsHandshake.ClientRequestAccepted | src/manager/wstransport.cpp:211-242 | such a request whose version reads as 1.1 or later, offering "nlcp", is answered with 101 and the accept token of the key's first 24 characters, returning 0 exactly when sending succeeds |
| WsHandshake.OldVersionRefused | src/manager/wstransport.cpp:151-155 | an HTTP/1.0 request is refused with the 400 answer and -1 |
| WsHandshake.OverlongVersionAccepted | src/manager/wstransport.cpp:145-155 | a major version too large for an `unsigned int`, such as 4294967296, is read as 4294967295, so with "nlcp" offered the handshake is answered with 101 and the key's accept token, returning 0 exactly when the send succeeds |
| WsHandshake.ReadFailureRefused | src/manager/wstransport.cpp:136-140 | a failed read of the headers is refused with the 400 answer and -1 whatever was read |
| WsFrames.FirstByteFields | src/manager/wstransport.cpp:278-280 | the FIN bit, reserved bits and opcode masked out of a first byte are the fields it was built from |
| WsFrames.FirstByteOfFields | src/manager/wstransport.cpp:278-280 | every first byte is rebuilt from the three fields masked out of it |
| WsFrames.SecondByteFields | src/manager/wstransport.cpp:307-308 | the mask bit and 7-bit length masked out of a second byte are the fields it was built from |
| WsFrames.SecondByteOfFields | src/manager/wstransport.cpp:307-308 | every second byte is rebuilt from its mask bit and 7-bit length |
| WsFrames.ControlOpcodes | src/manager/wstransport.cpp:289 | `opcode & 0b1000` picks out exactly the opcodes from OP_CLOSE (8) upwards |
| WsFrames.BigEndian | src/manager/wstransport.cpp:312-315 | the value `ntohs`/`ntohll` read from n bytes is below 2^(8n) |
| WsFrames.BigEndianBytes | src/manager/wstransport.cpp:312-315 | a value written in network order takes exactly the requested number of bytes |
| WsFrames.BigEndianRoundTrip | src/manager/wstransport.cpp:312-315 | a value that fits, written in network order and read back, is unchanged |
| WsFrames.BigEndianBytesRoundTrip | src/manager/wstransport.cpp:312-315 | bytes read in network order and written back are unchanged |
| WsFrames.BigEndianDigit | src/manager/wstransport.cpp:315 | each byte of a network-order value contributes at least its own weight |
| WsFrames.LengthBytes | src/manager/wstransport.cpp:311-317 | the shortest length encoding of RFC 6455 section 5.2 announces exactly the payload length, with a 7-bit field below 126 exactly for short payloads |
| WsFrames.Mask | src/manager/wstransport.cpp:331-333 | unmasking keeps the payload's length |
| WsFrames.MaskInvolution | src/manager/wstransport.cpp:331-333 | unmasking a payload masked with the same key gives the payload back |
| WsFrames.MaskPrefix | src/manager/wstransport.cpp:331 | unmasking the first n bytes does not depend on the bytes after them |
| WsFrames.Encode | src/manager/wstransport.cpp:277-322 | a client's frame in the layout `recv` reads is the header, the key when masked and the payload, and nothing else |
| WsFrames.EncodeLayout | src/manager/wstransport.cpp:277-322 | in an encoded frame the two header bytes, the extended length, the key and the masked payload sit where `recv` looks for them |
| WsFrames.HeaderOfEncoded | src/manager/wstransport.cpp:277-317 | `recv` reads back from an encoded frame the FIN bit, reserved bits, opcode, mask bit and payload length it was built with |
| WsFrames.PayloadOfEncoded | src/manager/wstransport.cpp:319-333 | unmasking an encoded frame's payload with the key in front of it gives the payload sent, cut to the room left |
| WsFrames.Pull | src/manager/wstransport.cpp:494-510 | `recv_complete` of `count` bytes blocks exactly when the connection has fewer left, and otherwise advances by `count` leaving earlier bytes alone |
| WsFrames.ReadLength | src/manager/wstransport.cpp:434-459 | the extended length read leaves a header whose reads stay inside the frame buffer |
| WsFrames.ReadKey | src/manager/wstransport.cpp:461-472 | the masking-key read leaves a header whose reads stay inside the frame buffer and never go back |
| WsFrames.ReadFrame | src/manager/wstransport.cpp:410-483 | `recv_frame` returns a count between 0 and the buffer length, taken off the connection, and at least 2 exactly when the buffer has room for a header |
| WsFrames.AfterHeader | src/manager/wstransport.cpp:434-483 | after the two header bytes, `recv_frame` only reads on within its buffer and the connection |
| WsFrames.AfterLength | src/manager/wstransport.cpp:461-483 | after the length fields, `recv_frame` only reads on within its buffer and the connection |
| WsFrames.ReadPayload | src/manager/wstransport.cpp:474-482 | the payload read takes at most the room left in the buffer |
| WsFrames.PullNext | src/manager/wstransport.cpp:494-510 | reading at the point reached keeps the frame buffer a copy of the connection's first bytes over what it held |
| WsFrames.LengthOfEncoded | src/manager/wstransport.cpp:434-459 | the length fields of an encoded frame announce its payload length, and the next field is read after them, except after a 64-bit length, where the position is 2 plus the step taken |
| WsFrames.ReadEncoded | src/manager/wstransport.cpp:410-483 | with the offsets of RFC 6455, `recv_frame` reads a frame that fits its buffer whole and nothing after it |
| WsFrames.ReadsOneFrame | src/manager/wstransport.cpp:410-483 | such a read leaves the rest of the connection untouched for the next round |
| WsFrames.Parse | src/manager/wstransport.cpp:277-327 | the payload `recv` takes lies inside the frame buffer, after the header and a four-byte key, and is no longer than the room left |
| WsFrames.Payload | src/manager/wstransport.cpp:319-333 | the delivered bytes are exactly as many as taken |
| WsFrames.ParseTakes | src/manager/wstransport.cpp:283-336 | a masked text frame opening a message, or a continuation frame inside one, is taken with all of its payload that fits |
| WsFrames.ParseAccepts | src/manager/wstransport.cpp:283-333 | on any frame buffer, the checks let a masked, well-placed data frame through with the payload start and length the header announces |
| WsFrames.ParseRejects | src/manager/wstransport.cpp:283-327 | reserved bits set, a continuation without an opening frame, a second opening frame or an unmasked frame close with 1002, another data opcode with 1003 |
| WsFrames.ParseSkips | src/manager/wstransport.cpp:289-292 | a control frame with clear reserved bits is passed over |
| WsFrames.NextTurn | src/manager/wstransport.cpp:269-341 | a round that goes on has consumed bytes of the connection and only added to the delivered bytes, within the buffer; one that ends returns the count it delivered |
| WsFrames.TurnOf | src/manager/wstransport.cpp:273-340 | the checks and copy after `recv_frame` only add to the delivered bytes, within the buffer, and a return reports how many |
| WsFrames.Rounds | src/manager/wstransport.cpp:269-343 | `recv` only adds to the delivered bytes, never past `len`, and returns their count |
| WsFrames.CopyPayload | src/manager/wstransport.cpp:329-333 | the copy loop puts the unmasked payload right after the bytes already delivered and touches nothing beyond it |
| WsFrames.HandleFrame | src/manager/wstransport.cpp:273-340 | the in-place round over a read frame buffer does what `TurnOf` describes and leaves the rest of `buf` alone |
| WsFrames.Round | src/manager/wstransport.cpp:271-340 | one in-place round of the loop does what `NextTurn` describes and leaves the rest of `buf` alone |
| WsFrames.Recv | src/manager/wstransport.cpp:264-344 | `recv` ends as the rounds of its loop describe, with the delivered bytes at the front of `buf` and the rest of it untouched |
| WsFrames.FullBufferReturns | src/manager/wstransport.cpp:269 | with the buffer full, `recv` returns `len` without reading |
| WsFrames.EncodedTake | src/manager/wstransport.cpp:283-335 | the checks pass on an encoded data frame, and what they let through is the frame's payload cut to the room left |
| WsFrames.DeliverEncoded | src/manager/wstransport.cpp:329-335 | the bytes copied out of an encoded frame are its payload cut to the room left |
| WsFrames.TurnOfTake | src/manager/wstransport.cpp:271-340 | a round over a frame buffer whose checks pass ends with the payload delivered on FIN and goes on with the rest of the connection otherwise |
| WsFrames.TurnDelivers | src/manager/wstransport.cpp:271-340 | one round over an accepted encoded frame delivers its payload, and goes on with what follows exactly when FIN is clear |
| WsFrames.FrameDelivered | src/manager/wstransport.cpp:269-341 | an accepted frame adds its payload, as far as it fits; the final fragment ends the call and any other lets it read on |
| WsFrames.RoundOfSkip | src/manager/wstransport.cpp:289-292 | after a control frame, `recv` carries on with the connection after it and nothing delivered |
| WsFrames.RoundOfFail | src/manager/wstransport.cpp:283-305 | a frame buffer the checks refuse ends `recv` with that close status and what was delivered before |
| WsFrames.ControlSkipped | src/manager/wstransport.cpp:289-292 | an encoded control frame is passed over and `recv` goes on exactly as on what follows |
| WsFrames.FrameRejected | src/manager/wstransport.cpp:283-327 | each refused frame ends the call with its close status, and earlier deliveries stay as they were |
| WsFrames.ShortBufferSpins | src/manager/wstransport.cpp:273-275 | with a one-byte buffer `recv_frame` returns 0 and `recv` loops for ever without reading |
| WsFrames.ShortStreamHangs | src/manager/wstransport.cpp:421 | a connection that has sent less than a frame header keeps `recv` waiting |
| WsFrames.MessageRead | src/manager/wstransport.cpp:264-344 | a fragmented message's payloads, cut to the buffer, are what `recv` delivers and returns, and what follows the message stays unread |
| WsFrames.MiddleFragment | src/manager/wstransport.cpp:336-341 | a fragment before the last adds its payload, then the rest of the message adds theirs |
| WsFrames.RestOfMessage | src/manager/wstransport.cpp:264-344 | the fragments after the first deliver the rest of the message on top of the first payload |
| WsFrames.LastFragment | src/manager/wstransport.cpp:338-340 | the final fragment ends the call with everything that fits delivered |
| WsFrames.FragmentsRest | src/manager/wstransport.cpp:293-300 | after a fragment without FIN, the remaining ones form a message continued with continuation frames |
| WsFrames.FilledStep | src/manager/wstransport.cpp:329-335 | cutting each payload to the room left delivers the same as cutting the whole message |
| WsFrames.RecvMessage | src/manager/wstransport.cpp:264-344 | a whole message sent to a fresh call is delivered as its joined payloads, as far as they fit |
| WsFrames.AsWrittenKeyPlacement | src/manager/wstransport.cpp:457-471 | as written, after a 64-bit length the masking key is stored from frame-buffer byte 4, over the length just read |
| WsFrames.AsWrittenLongFrameOverruns | src/manager/wstransport.cpp:447-459 | as written, a masked text frame with a 64-bit length and a non-zero first key byte makes `recv` read past its frame buffer |
| WsFrames.LongLengthRead | src/manager/wstransport.cpp:314-316 | a frame buffer whose 64-bit length has a non-zero third byte announces more than the buffer holds, so `recv` reads past it |
| ConnectedBitmap.SetBit | src/manager/radio.cpp:183-189 | `|= mask` sets exactly the chosen bit and `&= ~mask` clears exactly it; every other bit of the word is unchanged |
| ConnectedBitmap.SetLightConnected | src/manager/radio.cpp:178-190 | only the id's own word changes |
| ConnectedBitmap.DistinctIdsDistinctBits | src/manager/utils.cpp:11-12 | two different ids never share a word and bit |
| ConnectedBitmap.SetThenGet | src/manager/utils.cpp:9-18 | `isLightConnected` after `setLightConnected` gives the state just set, and no other bit of the word moves |
| ConnectedBitmap.SetKeepsOthers | src/manager/radio.cpp:178-190 | setting one id leaves every other id's state as it was |
| ConnectedBitmap.SetIdempotent | src/manager/radio.cpp:178-190 | setting an id twice to the same state is the same as setting it once |
| ConnectedBitmap.SetCommute | src/manager/radio.cpp:178-190 | setting two different ids gives the same bitmap in either order |
| ConnectedBitmap.OnlyLowBitsUsed | src/manager/utils.cpp:11-12 | ids 0..255 use only words 0..63 and only their four low bits |
| RadioLink.Address | src/manager/radio.cpp:96 | the writing pipe's low byte is the endpoint id |
| RadioLink.Pack | src/manager/radio.cpp:89-93 | the packet sent is the bytes 0x1D 0x16, the command and the three data bytes |
| RadioLink.Accept | src/manager/radio.cpp:114-131 | a reply is accepted exactly when one arrived carrying `HEADER`, and the message returned is the one it packs |
| RadioLink.AcceptPacked | src/manager/radio.cpp:119-131 | a light's own packet is received as the message it carries |
| RadioLink.SweepFrom | src/manager/radio.cpp:144-173 | the sweep from id i keeps the bitmap's size |
| RadioLink.Pings | src/manager/radio.cpp:140-146 | a sweep over n ids writes n pings |
| RadioLink.PingsSnoc | src/manager/radio.cpp:144-146 | each sweep round adds one ping, to the next id |
| RadioLink.PingsOrder | src/manager/radio.cpp:144-146 | after a sweep the log is the old one followed by a ping to ids 1, 2, … in turn |
| RadioLink.SweepStep | src/manager/radio.cpp:144-173 | one round probes id i, records its verdict and goes on from i + 1 |
| RadioLink.SweepDecides | src/manager/radio.cpp:137-176 | after the sweep every probed id is marked connected exactly when it answered a ping echoing its id; earlier ids and unused words keep their state |
| RadioLink.SweepMarksProbed | src/manager/radio.cpp:146-172 | every id probed is marked exactly as its probe answered |
| RadioLink.SweepKeepsEarlier | src/manager/radio.cpp:144 | ids the sweep does not reach keep their state |
| RadioLink.SweepKeepsUnused | src/manager/radio.cpp:178-190 | the sweep never touches a word past those ids 0..255 use |
| RadioLink.SilentSweepClears | src/manager/radio.cpp:155-158 | with no light answering every id 1..255 ends up disconnected |
| RadioLink.SweepDependsOnVerdicts | src/manager/radio.cpp:146-172 | the bitmap depends only on each id's verdict |
| RadioLink.SweepCommutes | src/manager/radio.cpp:178-190 | marking an id the sweep has passed commutes with the rest of the sweep |
| RadioLink.SweepAbsorbs | src/manager/radio.cpp:144-173 | re-marking a covered id with its own verdict changes nothing |
| RadioLink.AbsorbsFirst | src/manager/radio.cpp:144-173 | re-marking the sweep's first id with its verdict changes nothing |
| RadioLink.SweepAgain | src/manager/radio.cpp:137-176 | sweeping again from a later id with the same answers gives the same bitmap |
| RadioLink.SweepIdempotent | src/manager/radio.cpp:137-176 | a second discovery sweep with the same answers gives the same bitmap |
| RadioLink.ColorMessage | src/manager/radio.cpp:76 | the frame pass sends `CMD_SET_RGB` with the light's red, green and blue |
| RadioLink.FrameStep | src/manager/radio.cpp:72-79 | each id of a frame pass sends one colour when the pass's test selects it and nothing otherwise; the test is a parameter, the word test `connected[i]` as written or the bit test as corrected |
| RadioLink.FrameSendsOwnColors | src/manager/radio.cpp:72-79 | a frame pass sends only to the ids its test selects, each its own colour |
| RadioLink.FrameReachesAll | src/manager/radio.cpp:72-79 | a frame pass reaches every id its test selects |
| RadioLink.FrameAscending | src/manager/radio.cpp:72 | a frame pass goes in strictly ascending id order, so no light is sent to twice |
| RadioLink.PrependAscending | src/manager/radio.cpp:72 | a lower id in front of an ascending log keeps it ascending |
| RadioLink.FrameReachesTargets | src/manager/radio.cpp:72-79 | the ids a whole pass over 1..255 reaches are exactly the selected ids other than 0 |
| RadioLink.AsWrittenFrameReaches | src/manager/radio.cpp:72-79 | as written, the pass reaches exactly the ids 1..255 whose word `connected[i]` is non-zero |
| RadioLink.FrameReachesConnected | src/manager/radio.cpp:72-79 | corrected: with the bit test `isLightConnected`, the lights a frame reaches are exactly the ids 1..255 marked connected |
| RadioLink.AsWrittenTargetsMissLight5 | src/manager/radio.cpp:75 | as written, with only light 5 connected the pass sends to light 1 and skips light 5 |
| RadioLink.DecodeTemperature | src/manager/radio.cpp:235 | the temperature is the two reply bytes read as a 16-bit two's complement value, negative exactly when the high bit is set |
| RadioLink.TemperatureRoundTrip | src/manager/radio.cpp:235 | every 16-bit temperature survives the trip through the reply bytes |
| RadioLink.DecodeUptime | src/manager/radio.cpp:266 | the uptime's high byte is the first reply byte and its low byte the second |
| RadioLink.Radio.constructor | src/manager/radio.cpp:51-57 | the radio is handed the shared bitmap and colour table and has sent nothing |
| RadioLink.Radio.Send | src/manager/radio.cpp:87-101 | one write of the packed message to the endpoint's pipe; the result is the acknowledgement |
| RadioLink.Radio.Receive | src/manager/radio.cpp:103-132 | succeeds exactly when the waiting packet carries `HEADER`, giving its command and data |
| RadioLink.Radio.SetLightConnected | src/manager/radio.cpp:178-190 | the shared bitmap becomes the function's `SetLightConnected` of its old value |
| RadioLink.Radio.PingAllLights | src/manager/radio.cpp:137-176 | the bitmap becomes the sweep of its old value, after a ping to each id 1..255 in turn |
| RadioLink.Radio.ProbeLight | src/manager/radio.cpp:146-172 | one round marks the id connected exactly when it acknowledged and answered a ping echoing its id |
| RadioLink.Radio.SetRGB | src/manager/radio.cpp:201-207 | one `CMD_SET_RGB` write to the light; the result is its acknowledgement, and the reading pipe then holds the reply to that write, if acknowledged |
| RadioLink.Radio.GetTemperature | src/manager/radio.cpp:216-238 | succeeds exactly when the light acknowledged and replied `CMD_TEMP_RESPONSE`; the temperature is written only then, and the reply is consumed |
| RadioLink.Radio.GetUptime | src/manager/radio.cpp:247-269 | succeeds exactly when the light acknowledged and replied `CMD_UPTIME_RESPONSE`; the uptime is written only then, and the reply is consumed |
| RadioLink.Radio.SendFrame | src/manager/radio.cpp:71-80 | one frame pass as written: the colour of every id 1..255 whose word `connected[i]` is non-zero, in id order, and nothing else; the reading pipe then holds the reply to the last write, or is unchanged when nothing was sent |
| UdpAddress.PortBytes | software/udpserver/udptransport.cpp:248 | `htons` stores a port in two bytes |
| UdpAddress.PortRoundTrip | software/udpserver/udptransport.cpp:301 | the port `ntohs` reads back from the stored bytes is the port stored |
| UdpAddress.Zeros | software/udpserver/udptransport.cpp:253 | the padding is n zero bytes |
| UdpAddress.ExtractAddressPort | software/udpserver/udptransport.cpp:294-315 | IPv4 gives a 4-byte address and any other family a 16-byte one, and nothing else |
| UdpAddress.SenderImage | software/udpserver/udptransport.cpp:99-100 | the structure the kernel writes for a sender has the size of `sockaddr_in` or `sockaddr_in6` |
| UdpAddress.Delivered | software/udpserver/udptransport.cpp:176-179 | `recvfrom` writes the sender structure cut to the room given |
| UdpAddress.ExtractFromStorage | software/udpserver/udptransport.cpp:176-190 | with a `sockaddr_storage`, the peer taken out is the sender, whatever the rest of the storage holds |
| UdpAddress.AsWrittenSockaddrKeepsIpv4 | src/manager/udptransport.cpp:156-166 | with the 16-byte `struct sockaddr`, an IPv4 sender still comes out whole |
| UdpAddress.AsWrittenSockaddrCutsIpv6 | src/manager/udptransport.cpp:156-166 | with the 16-byte `struct sockaddr`, an IPv6 sender's last eight address bytes are read from memory past the buffer, so the peer differs from the sender |
| UdpAddress.Rebuild | software/udpserver/udptransport.cpp:237-267 | the rebuilt destination has the peer's family, and its length is that of `sockaddr_in` for IPv4 and of `sockaddr_in6` for IPv6 |
| UdpAddress.RebuildRoundTrip | software/udpserver/udptransport.cpp:237-267 | taking the address and port out of the rebuilt destination gives back the stored peer, whatever the uninitialised bytes hold |
| UdpAddress.RebuildShape | software/udpserver/udptransport.cpp:253-266 | an IPv4 destination is zero padded; an IPv6 one has the length of `sockaddr_in6` |
| UdpMux.Truncate | software/udpserver/udptransport.cpp:179 | `recvfrom` into len bytes keeps the first len bytes of a datagram |
| UdpMux.SocketValidTail | software/udpserver/udptransport.cpp:99-100 | after the head is consumed, every sender left still has a reported address |
| UdpMux.SkipFailures | software/udpserver/udptransport.cpp:99-100 | the failed peeks consume only errors at the head; what is left is empty or starts with a datagram |
| UdpMux.AcceptableHead | software/udpserver/udptransport.cpp:96-113 | `accept` registers someone exactly when the head left after the failed peeks carries data from a peer not in the table |
| UdpMux.RegisterFresh | software/udpserver/udptransport.cpp:106-120 | registering a new peer under the next id keeps the ids distinct, and the new id is open and larger than every earlier one |
| UdpMux.Unregister | software/udpserver/udptransport.cpp:145-151 | removing the entry with value fd adds no peer |
| UdpMux.DisconnectEffect | software/udpserver/udptransport.cpp:134-156 | after `disconnect(fd)` the id is closed and has no queue, every other id keeps its state, and the result is 0 exactly when the id was open |
| UdpMux.DisconnectAgain | software/udpserver/udptransport.cpp:134-156 | a second `disconnect` of the same id returns -1 and changes nothing |
| UdpMux.UnregisterValid | software/udpserver/udptransport.cpp:145-151 | removing an id keeps the table's ids distinct and in range |
| UdpMux.EraseOnly | software/udpserver/udptransport.cpp:145-151 | in a valid table, erasing the first entry with value fd erases every entry with that value |
| UdpMux.Route | software/udpserver/udptransport.cpp:162-212 | the routing loop only consumes the socket |
| UdpMux.Skipped | software/udpserver/udptransport.cpp:189-211 | the datagrams passed over are at the head of the socket |
| UdpMux.SkippedMeaning | software/udpserver/udptransport.cpp:189-211 | the passed-over arrivals are datagrams not for the reader, and the arrival after them is an error or for the reader |
| UdpMux.RouteOutcome | software/udpserver/udptransport.cpp:158-215 | `recv` passes over datagrams not for the reader and stops at the first arrival that is: an error gives -1, the reader's datagram is returned cut to len, and with none it waits for ever |
| UdpMux.ForFdCons | software/udpserver/udptransport.cpp:205-210 | the share of one arrival in a client's datagrams, then the rest |
| UdpMux.PassOver | software/udpserver/udptransport.cpp:205-210 | passing over a datagram appends it to its own client's queue, if it has one |
| UdpMux.RoutePassesOver | software/udpserver/udptransport.cpp:189-211 | after a datagram not for the reader, the loop goes on with the rest of the socket |
| UdpMux.PassedOverIsSkipped | software/udpserver/udptransport.cpp:189-211 | the arrivals passed over are exactly the first skipped ones |
| UdpMux.ShareOfFirst | software/udpserver/udptransport.cpp:205-210 | the first passed-over datagram lands in its own client's queue, then the later ones |
| UdpMux.RouteQueues | software/udpserver/udptransport.cpp:158-215 | nothing read for another client is lost or reordered: each client's queue gains exactly its own datagrams among those passed over, oldest first |
| UdpMux.RouteQueuesPassedOver | software/udpserver/udptransport.cpp:158-215 | each client's queue gains its own datagrams among the arrivals passed over, in order |
| UdpMux.RouteKeepsOwnQueue | software/udpserver/udptransport.cpp:201-211 | the routing loop never queues for the reader itself |
| UdpMux.RouteStops | software/udpserver/udptransport.cpp:201-203 | where the loop stops at once, no queue changes |
| UdpMux.RecvQueuedFirst | software/udpserver/udptransport.cpp:164-172 | a client with datagrams queued gets the oldest of them, the socket is not read, and no other queue changes |
| UdpMux.RecvNeverMisdelivers | software/udpserver/udptransport.cpp:158-215 | a datagram `recv` returns from the socket was sent by the peer registered under the reader's id, the only peer with that id |
| UdpServerTransport.ServerRoute | software/udpserver/udptransport.cpp:175-211 | the routing loop of this revision never grows the socket; an unknown peer's datagram leaves `con_mutex` locked, and the next datagram read then never returns |
| UdpServerTransport.ServerRouteOnlyHangs | software/udpserver/udptransport.cpp:175-211 | whenever this revision's routing loop returns, it returns what the shared `UdpMux.Route` gives, with the same queues and socket |
| UdpServerTransport.ServerRouteKnownPeers | software/udpserver/udptransport.cpp:190-211 | with every sender in the table, this revision's loop is exactly `UdpMux.Route` |
| UdpServerTransport.ServerRecvAgrees | software/udpserver/udptransport.cpp:158-215 | whenever this revision's `recv` returns, it agrees with `UdpMux.Recv`, so it never returns another client's datagram |
| UdpServerTransport.StrayDatagramHangs | software/udpserver/udptransport.cpp:192-197 | an unknown peer's datagram followed by the reader's own: the shared rule returns the second, this revision never returns |
| UdpServerTransport.Transport.constructor | software/udpserver/udptransport.cpp:23-29 | the transport starts with no connections, no queues and the first id 1024 |
| UdpServerTransport.Transport.Accept | software/udpserver/udptransport.cpp:84-121 | failed peeks are consumed; a new peer at the head is registered under the next id, which is returned and advanced; otherwise nothing changes and the call never returns |
| UdpServerTransport.Transport.RegisterHead | software/udpserver/udptransport.cpp:102-120 | the head is registered exactly when it carries data from a peer not in the table |
| UdpServerTransport.Transport.SkipFailedPeeks | software/udpserver/udptransport.cpp:99-100 | the peek loop consumes the errors at the head of the socket |
| UdpServerTransport.Transport.IsOpen | software/udpserver/udptransport.cpp:272-285 | 1 exactly when some entry has the id as its value, 0 otherwise |
| UdpServerTransport.Transport.Connect | software/udpserver/udptransport.cpp:123-132 | 0 exactly for an open id, -1 otherwise |
| UdpServerTransport.Transport.Disconnect | software/udpserver/udptransport.cpp:134-156 | the table, queues and result become those of the `Disconnect` rule, keeping the table valid |
| UdpServerTransport.Transport.Recv | software/udpserver/udptransport.cpp:158-215 | the result, queues and socket become those of this revision's `ServerRecv`, lock fault included; the table is unchanged |
| UdpServerTransport.Transport.ReadOne | software/udpserver/udptransport.cpp:175-211 | one read either ends the routing loop as `ServerRoute` says, a relock of the held `con_mutex` included, or passes over one datagram, noting whether the lock is now held |
| UdpServerTransport.Transport.Send | software/udpserver/udptransport.cpp:217-270 | -1 exactly when the id is not open; otherwise one datagram of the bytes goes to a destination whose address and port are those of the peer registered under the id |
| UdpManagerTransport.Transport.constructor | src/manager/udptransport.cpp:80-85 | the transport starts with no connections, no queues and the first id 1024 |
| UdpManagerTransport.Transport.Accept | src/manager/udptransport.cpp:80-110 | failed peeks are consumed; a new peer at the head is registered under the next id, which is returned and advanced; otherwise nothing changes and the call never returns |
| UdpManagerTransport.Transport.RegisterHead | src/manager/udptransport.cpp:97-109 | the head is registered exactly when it carries data from a peer not in the table |
| UdpManagerTransport.Transport.SkipFailedPeeks | src/manager/udptransport.cpp:94-95 | the peek loop consumes the errors at the head of the socket |
| UdpManagerTransport.Transport.IsOpen | src/manager/udptransport.cpp:240-249 | 1 exactly when some entry has the id as its value, 0 otherwise |
| UdpManagerTransport.Transport.Connect | src/manager/udptransport.cpp:112-121 | 0 exactly for an open id, -1 otherwise |
| UdpManagerTransport.Transport.Disconnect | src/manager/udptransport.cpp:123-140 | the table, queues and result become those of the `Disconnect` rule, keeping the table valid |
| UdpManagerTransport.Transport.Recv | src/manager/udptransport.cpp:142-185 | the result, queues and socket become those of the `Recv` rule; the table is unchanged |
| UdpManagerTransport.Transport.ReadOne | src/manager/udptransport.cpp:156-181 | one read either ends the routing loop as `Route` says or passes over one datagram |
| UdpManagerTransport.Transport.Send | src/manager/udptransport.cpp:187-238 | -1 exactly when the id is not open; otherwise one datagram of the bytes goes to a destination whose address and port are those of the peer registered under the id |

## Left out

- Socket and process plumbing is not modelled. This covers `init`, bind and listen; `recv_headers`, `recv_complete` and `send_complete` as system-call loops; `mmap`, semaphores, `fork` and `wait`. Each connection is the sequence of bytes or arrivals it delivers. `recv_complete` appears only as `WsFrames.Pull`: a read that blocks when too few bytes are left.
- SHA-1 and base64 (OpenSSL) are function parameters of `WsHandshake.Connect`, since they are foreign calls.
- The unimplemented parts of the program are not modelled: `WSTransport::send`, `handle_control_frame`, the close frame of `close`, and the handshake of `UDPTransport::connect`. They contain no logic to model.
- Mutexes and semaphores are not modelled apart from the one noted next; the model is sequential.
- UdpServerTransport.Transport.Recv: the `con_mutex` that the unknown-peer branch leaves locked is modelled within one call, as `held` (the next datagram read never returns). When that call then returns -1 with the lock still held, every later call that locks `con_mutex` would wait for ever; the class keeps no lock state between calls, so its other methods do not show that.
- RF24 timing, the `millis()` wait, the `clock()` frame gate and `printDetails` are not modelled. Each is a driver or clock call. The radio is the `RadioDriver.Air` oracle: an acknowledgement per write and an optional reply per wait.
- The endless outer loop of `Radio::run` is not modelled. `RadioLink.Radio.SendFrame` is one pass of its body.
- Files with nothing to model here are left out: manager/comet.py, extension/background.js, receiver/bluetooth.*, software/wsserver/wsserver.py, software/scheduler/scheduler.py, manager/server.*, firmware/network.h and manager/radio.cpp.
- Text.StoreUnsigned: takes `unsigned long` to be 32 bits wide (`ULONG_MAX` = 2^32 - 1), as on the Raspberry Pi the manager runs on. On a 64-bit C library `strtoul` would saturate at 2^64 - 1 instead, and a number between 2^32 and 2^64 - 1 would be stored modulo the width; the model does not cover that build.
- WsHandshake.StoredUint: with the 32-bit `unsigned long` of the Raspberry Pi, every number from 2^32 up saturates to 4294967295. A 64-bit build would keep such a number modulo 2^32 up to 2^64 - 1; that build is not modelled.
- `sscanf` leniency is modelled only in part. `%u` and `%hhu` skip white space and read decimal digits. The value saturates at `ULONG_MAX` as `strtoul` does, then is stored modulo 2^32 or 256 (`Text.StoreUnsigned`). `%02x` skips white space and reads one or two hex digits. Signs and `0x` prefixes are not modelled.
- WsFrames.Recv: an ending that never returns is reported as an outcome. It is `Hangs` when the connection has too few bytes and `Spins` when the buffer is shorter than a frame header. A frame buffer that `recv` reads past is reported as `ReadsPastFrame`. `recv` errors and end of file are not modelled: the connection only ever supplies bytes or runs out.
- WsFrames.Rounds: every round's frame buffer starts out as the same `junk` bytes. The contents of the uninitialised `framebuf` are one arbitrary parameter, not fresh ones per round.
- WsFrames.Recv: the `int i` counter of the copy loop is unbounded. The model does not show what happens past 2^31 payload bytes.
- WsFrames.ReadFrame: `ntohll` is not defined in the source files. It is modelled as the 64-bit big-endian read of RFC 6455, like `ntohs`.
- WsFrames.FrameDelivered: requires a buffer that is not yet full, and so do `FrameRejected` and `MiddleFragment`. A full buffer returns before any read (`FullBufferReturns`).
- BulkColorServer.Apply: follows the corrected token loop of the first Findings row, which stops at the end of the 256-entry table and refuses id 256 with its error reply. As written, software/wsserver/server.cpp:127-133 stores a 256th scanning token to `colors[256]`, past the table, and sends no error; that write is shown by `BulkColorServer.AsWrittenWritesPastTable` and not modelled further.
- BulkColorServer.AcceptedMeaning: follows the corrected token loop of the first Findings row, which stops at the end of the 256-entry table and refuses id 256 with its error reply. As written, software/wsserver/server.cpp:127-133 stores a 256th scanning token to `colors[256]`, past the table, and sends no error; that write is shown by `BulkColorServer.AsWrittenWritesPastTable` and not modelled further.
- BulkColorServer.AcceptedFits: follows the corrected token loop of the first Findings row, which stops at the end of the 256-entry table and refuses id 256 with its error reply. As written, software/wsserver/server.cpp:127-133 stores a 256th scanning token to `colors[256]`, past the table, and sends no error; that write is shown by `BulkColorServer.AsWrittenWritesPastTable` and not modelled further.
- BulkColorServer.AcceptedStops: follows the corrected token loop of the first Findings row, which stops at the end of the 256-entry table and refuses id 256 with its error reply. As written, software/wsserver/server.cpp:127-133 stores a 256th scanning token to `colors[256]`, past the table, and sends no error; that write is shown by `BulkColorServer.AsWrittenWritesPastTable` and not modelled further.
- BulkColorServer.ApplyEffect: follows the corrected token loop of the first Findings row, which stops at the end of the 256-entry table and refuses id 256 with its error reply. As written, software/wsserver/server.cpp:127-133 stores a 256th scanning token to `colors[256]`, past the table, and sends no error; that write is shown by `BulkColorServer.AsWrittenWritesPastTable` and not modelled further.
- BulkColorServer.Process: follows the corrected token loop of the first Findings row, which stops at the end of the 256-entry table and refuses id 256 with its error reply. As written, software/wsserver/server.cpp:127-133 stores a 256th scanning token to `colors[256]`, past the table, and sends no error; that write is shown by `BulkColorServer.AsWrittenWritesPastTable` and not modelled further.
- BulkColorServer.Server.ProcessMessage: follows the corrected token loop of the first Findings row, which stops at the end of the 256-entry table and refuses id 256 with its error reply. As written, software/wsserver/server.cpp:127-133 stores a 256th scanning token to `colors[256]`, past the table, and sends no error; that write is shown by `BulkColorServer.AsWrittenWritesPastTable` and not modelled further.
- BulkColorServer.RefusedAtTableEnd: follows the corrected token loop of the first Findings row, which stops at the end of the 256-entry table and refuses id 256 with its error reply. As written, software/wsserver/server.cpp:127-133 stores a 256th scanning token to `colors[256]`, past the table, and sends no error; that write is shown by `BulkColorServer.AsWrittenWritesPastTable` and not modelled further.
- BulkColorServer.AcceptedPrefix: follows the corrected token loop of the first Findings row, which stops at the end of the 256-entry table and refuses id 256 with its error reply. As written, software/wsserver/server.cpp:127-133 stores a 256th scanning token to `colors[256]`, past the table, and sends no error; that write is shown by `BulkColorServer.AsWrittenWritesPastTable` and not modelled further.
- WsFrames.NextTurn: reads a 64-bit extended length with the step of RFC 6455 section 5.2 (`LONG_STEP`, 8 bytes), the corrected half of the last Findings row. As written, src/manager/wstransport.cpp:458 moves on by `sizeof(uint16_t)`; what that does to a long frame is shown by `WsFrames.AsWrittenLongFrameOverruns` only.
- WsFrames.Round: reads a 64-bit extended length with the step of RFC 6455 section 5.2 (`LONG_STEP`, 8 bytes), the corrected half of the last Findings row. As written, src/manager/wstransport.cpp:458 moves on by `sizeof(uint16_t)`; what that does to a long frame is shown by `WsFrames.AsWrittenLongFrameOverruns` only.
- WsFrames.Rounds: reads a 64-bit extended length with the step of RFC 6455 section 5.2 (`LONG_STEP`, 8 bytes), the corrected half of the last Findings row. As written, src/manager/wstransport.cpp:458 moves on by `sizeof(uint16_t)`; what that does to a long frame is shown by `WsFrames.AsWrittenLongFrameOverruns` only.
- WsFrames.Recv: reads a 64-bit extended length with the step of RFC 6455 section 5.2 (`LONG_STEP`, 8 bytes), the corrected half of the last Findings row. As written, src/manager/wstransport.cpp:458 moves on by `sizeof(uint16_t)`; what that does to a long frame is shown by `WsFrames.AsWrittenLongFrameOverruns` only.
- RadioLink: src/manager/radio.cpp uses `HEADER` and a packet with a `header` field, as network.h defines them. But src/manager/radio.h includes src/network.h, which has no `HEADER` and a four-byte packet without a header, so the file does not build against the header it includes. The model takes the packet layout and `HEADER` from network.h and the command codes and addresses from src/network.h.
- UdpServerTransport.Transport.Accept: an `accept` that would peek at the same head for ever returns `None`.
- UdpServerTransport.Transport.Recv: a `recv` that would poll an empty socket for ever returns `Blocks`. The manager revision does the same when its blocking read would never return.
- UdpManagerTransport.Transport.Recv: reads senders as the kernel reports them, as if through a `sockaddr_storage`. What the 16-byte `struct sockaddr` of that revision does to IPv6 senders is stated separately, in `UdpAddress.AsWrittenSockaddrCutsIpv6`.
- UdpServerTransport.Transport.Send: `sendto` is taken to send every byte. Its errors are not modelled.
- UdpManagerTransport.Transport.Send: `sendto` is taken to send every byte, so an open id always gives `|data|`. The -1 that src/manager/udptransport.cpp:237 passes on from a failed `sendto` is not modelled.
- `accept`'s copy of the peer's address into the caller's `addr` is not modelled. It is a `memcpy` of caller-chosen length.
- ConnectedBitmap.SetLightConnected: the `connected` mapping is taken to hold `NUM_IDS` words. The program maps `(NUM_IDS + 3) / 4` bytes, and the code reads and writes beyond that within the mapped page.

## Findings

| source | as written | input that shows it | evidently intended | confidence | as-written member | corrected member |
|---|---|---|---|---|---|---|
| software/wsserver/server.cpp:127-133 | each token that scans is stored at `colors[id]`, and `id` counts up from 1 with no bound | a message of 256 tokens "000000" joined by commas stores the last one to `colors[256]`, one past the 256-entry table | tokens beyond id 255 are refused with the error for that id | not executed | BulkColorServer.AsWrittenWritesPastTable | BulkColorServer.BoundedRefusesPastTable |
| src/manager/radio.cpp:75 | the frame loop tests the word `connected[i]`, not bit `i % 4` of word `i / 4` | only light 5 connected: word 1 holds bit 1, so light 1 is sent a colour and light 5 is skipped | send to exactly the lights `isLightConnected` reports | not executed | RadioLink.AsWrittenTargetsMissLight5 | RadioLink.FrameReachesConnected |
| src/manager/udptransport.cpp:156-166 | the sender is received into a 16-byte `struct sockaddr` and then read as a `sockaddr_in6` | an IPv6 sender: address bytes 8 to 15 are read from memory past the buffer, so the peer differs from the sender | receive into a `sockaddr_storage`, as `accept` and the server revision do | not executed | UdpAddress.AsWrittenSockaddrCutsIpv6 | UdpAddress.ExtractFromStorage |
| software/udpserver/udptransport.cpp:192-197 | the branch for a sender not in the table goes round the loop again without unlocking `con_mutex` | a datagram from an unknown peer, then one from the reader's own peer: the loop relocks `con_mutex`, which the thread already holds, and `recv` never returns | unlock `con_mutex` before going round again, so that the loop returns what the manager revision's does | not executed | UdpServerTransport.StrayDatagramHangs | UdpMux.RouteOutcome |
| src/manager/wstransport.cpp:457-458 | after the 64-bit extended length, the write position moves on by `sizeof(uint16_t)` | a masked text frame with a payload of 65536 bytes or more and a non-zero first key byte: the key overwrites the length bytes, and `recv` reads the length as at least 2^40, far past the frame buffer | move past the 8 bytes of the length, as section 5.2 of RFC 6455 lays out | not executed | WsFrames.AsWrittenLongFrameOverruns | WsFrames.ReadEncoded |
