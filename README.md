# SOCKS5 server handshake (simplesocks `Socks5Server`), modelled in Dafny

This project models the client-facing SOCKS5 handshake of `Socks5Server` (RFC 1928) and proves properties of it. The handshake has three operations:

- method negotiation (section 3 of RFC 1928): the server accepts only "no authentication required";
- request parsing (section 4): command, reserved byte, address type, address and port;
- the reply (section 6): ten bytes that always report the wildcard bound address.

The model is in five modules:

- `Wire` (wire.dfy): bytes, the failures an operation can end with, and the `InputStream.read()` convention.
- `Codes` (codes.dfy): the `Command` and `ResponseCode` enumerations and their one-byte wire codes.
- `Handshake` (handshake.dfy): what each operation does. Each is a function of the input bytes, the read cursor and the fields before the call. It gives the result or failure, the cursor afterwards, the bytes written and the fields afterwards. The general properties are lemmas here.
- `Messages` (messages.dfy): the client's side of the format. It encodes the method offer and the request, and decodes the reply. The round-trip lemmas and the worked examples are here.
- `Server` (server.dfy): the `Socks5Server` class. It holds the input as a byte sequence plus a cursor, the output written so far, and the fields `command`, `address`, `hostName` and `port`. Its methods read and write step by step, and each is proved to produce exactly the state the matching `Handshake` function describes. The scan over the offered methods is the loop with an early exit in `OffersNoAuth`.

End of stream is modelled as the source handles it. `read()` returns -1 and consumes nothing. `readFully` consumes what is left and then fails with end of stream. This gives the following behaviour:

- A missing version byte fails like a wrong one.
- A missing method count or host-name length reaches `new byte[-1]`, which is the `NegativeArraySize` failure.
- A missing command, reserved or address-type byte only makes the request incorrect.
- The port is Java's 32-bit `hi << 8 | lo` of two `read()` results (`Wire.PortFrom`). It is -1 when the stream ends before the port, and otherwise the big-endian value in 0..65535. The operator would give `lo - 256` if only the first byte were missing, but a stream that has ended stays ended, so that case never arises.

Two behaviours of the code are kept as written:

- On an unknown address type no address bytes are consumed, but two "port" bytes are still read. These are the first bytes after the address-type byte (`Messages.UnknownAddressTypeReadsPort`). Aborting before the port read would be the cleaner design, but the code does not do that.
- The handshake phases are not tracked. The caller orders the calls, as in the code. A stricter design would reject out-of-order calls.

A field assigned before an exception keeps its new value. The command is set before the address is read, so a failed address read leaves the new command in place.

## Model

| member | source | states |
|---|---|---|
| `Wire.ReadAt` | simplesocks/src/main/java/org/connectbot/simplesocks/Socks5Server.java:178 | a single-byte read gives a value in -1..255, and -1 exactly at end of stream |
| `Wire.PortFrom` | simplesocks/src/main/java/org/connectbot/simplesocks/Socks5Server.java:253 | the shift-and-or of the two port reads lies in -256..65535 and is non-negative exactly when both reads returned a byte |
| `Wire.DecodeAscii` | simplesocks/src/main/java/org/connectbot/simplesocks/Socks5Server.java:241-244 | the strict US-ASCII decoder gives one character per byte, all of them ASCII |
| `Wire.DecodeEncodeAscii` | simplesocks/src/main/java/org/connectbot/simplesocks/Socks5Server.java:241-244 | decoding the US-ASCII bytes of an ASCII string gives the string back |
| `Codes.CommandNumber` | simplesocks/src/main/java/org/connectbot/simplesocks/Socks5Server.java:67-71 | CONNECT and BIND have wire codes 1 and 2 |
| `Codes.FromCommandNumber` | simplesocks/src/main/java/org/connectbot/simplesocks/Socks5Server.java:73-81 | a command is found exactly for codes 1 and 2 (null otherwise), and it is the one with that code |
| `Codes.CommandNumberRoundTrip` | simplesocks/src/main/java/org/connectbot/simplesocks/Socks5Server.java:73-91 | looking up a command's own code gives that command back |
| `Codes.Code` | simplesocks/src/main/java/org/connectbot/simplesocks/Socks5Server.java:138-140 | every reply code is a byte at most 0x08 |
| `Codes.CodesInDeclarationOrder` | simplesocks/src/main/java/org/connectbot/simplesocks/Socks5Server.java:98-130 | the nine reply codes, in declaration order, have codes 0x00..0x08, and the list covers every code |
| `Codes.CodeInjective` | simplesocks/src/main/java/org/connectbot/simplesocks/Socks5Server.java:98-130 | two reply codes with the same byte are the same code |
| `Handshake.Negotiate` | simplesocks/src/main/java/org/connectbot/simplesocks/Socks5Server.java:175-199 | negotiation never moves the cursor backwards or past the end of the input |
| `Handshake.ReadInetAddress` | simplesocks/src/main/java/org/connectbot/simplesocks/Socks5Server.java:232-234 | reading a numeric address stays within the input |
| `Handshake.ReadAddress` | simplesocks/src/main/java/org/connectbot/simplesocks/Socks5Server.java:230-251 | every address branch stays within the input |
| `Handshake.ReadPort` | simplesocks/src/main/java/org/connectbot/simplesocks/Socks5Server.java:253-255 | after a normal address branch the port is non-negative exactly when two bytes follow the address; then it is their big-endian value and the request ends right after them, otherwise it is -1 at end of input |
| `Handshake.ParseRequest` | simplesocks/src/main/java/org/connectbot/simplesocks/Socks5Server.java:216-256 | reading a request never moves the cursor backwards or past the end of the input |
| `Handshake.BadVersionChangesNothing` | simplesocks/src/main/java/org/connectbot/simplesocks/Socks5Server.java:201-205 | a version byte other than 0x05 fails both operations after at most one byte, with nothing written and no field changed |
| `Handshake.NegotiateOutcome` | simplesocks/src/main/java/org/connectbot/simplesocks/Socks5Server.java:178-198 | a normal return consumed exactly 2 + N bytes and wrote exactly {0x05, 0x00} when 0x00 was offered, else {0x05, 0xFF}; an exception wrote nothing |
| `Handshake.RequestCorrectIff` | simplesocks/src/main/java/org/connectbot/simplesocks/Socks5Server.java:219-255 | a request returns true iff the command is 1 or 2, the reserved byte is 0x00 and the address type is 1, 3 or 4 |
| `Handshake.RequestTouchesOneAddressField` | simplesocks/src/main/java/org/connectbot/simplesocks/Socks5Server.java:230-251 | only type 1 or 4 changes the address (to 4 or 16 bytes), only type 3 changes the host name, and the other field is unchanged |
| `Handshake.RequestPortBigEndian` | simplesocks/src/main/java/org/connectbot/simplesocks/Socks5Server.java:253 | the port is b0*256 + b1 of the two bytes right after the address field, in 0..65535, whenever both are there, and -1 exactly when the stream ends first, including inside the header |
| `Handshake.TruncatedAddressFails` | simplesocks/src/main/java/org/connectbot/simplesocks/Socks5Server.java:231-248 | an IPv4 or IPv6 address cut short fails with end of stream and never yields a truncated address |
| `Handshake.NonAsciiHostFails` | simplesocks/src/main/java/org/connectbot/simplesocks/Socks5Server.java:235-244 | a domain name with a byte at or above 0x80 fails with its own malformed-input error after the name is consumed, and the host name keeps its prior value |
| `Handshake.ParseRequestKeepsFieldsValid` | simplesocks/src/main/java/org/connectbot/simplesocks/Socks5Server.java:221-253 | reading a request keeps the address at 4 or 16 bytes, the host name ASCII and under 256 characters, and the port at -1 or in 0..65535 |
| `Handshake.ParseRequestHeader` | simplesocks/src/main/java/org/connectbot/simplesocks/Socks5Server.java:217-253 | with the four header bytes present, a request is the address branch at offset 4 followed by the port read |
| `Messages.NegotiateOffer` | simplesocks/src/main/java/org/connectbot/simplesocks/Socks5Server.java:178-198 | for any encoded offer, negotiation consumes exactly 2 + N bytes, returns whether 0x00 was offered and answers {0x05, 0x00} or {0x05, 0xFF} |
| `Messages.NegotiateNoMethods` | simplesocks/src/main/java/org/connectbot/simplesocks/Socks5Server.java:182-198 | an offer of zero methods returns false and answers {0x05, 0xFF} |
| `Messages.ReadDestination` | simplesocks/src/main/java/org/connectbot/simplesocks/Socks5Server.java:230-248 | each address branch reads back exactly an encoded IPv4 address, domain name or IPv6 address |
| `Messages.ParseRequestRoundTrip` | simplesocks/src/main/java/org/connectbot/simplesocks/Socks5Server.java:216-256 | parsing an encoded request gives true, its command, its address or host name and its port, consumes exactly its bytes and leaves the other field unchanged |
| `Messages.DecodeReplyRoundTrip` | simplesocks/src/main/java/org/connectbot/simplesocks/Socks5Server.java:266-276 | a client decodes from every reply the code it was sent with |
| `Messages.ReplyShape` | simplesocks/src/main/java/org/connectbot/simplesocks/Socks5Server.java:266-276 | a reply is 0x05, the code, then 00 01 00 00 00 00 00 00, and distinct codes give distinct replies |
| `Messages.UnknownAddressTypeReadsPort` | simplesocks/src/main/java/org/connectbot/simplesocks/Socks5Server.java:249-253 | an unknown address type returns false after six bytes, and the port comes from the two bytes after the address-type byte |
| `Messages.LocalhostExample` | simplesocks/src/main/java/org/connectbot/simplesocks/Socks5Server.java:235-244 | 05 01 00 03 09 "localhost" 01 BB parses to CONNECT, host name "localhost", port 443 |
| `Messages.IPv4Example` | simplesocks/src/main/java/org/connectbot/simplesocks/Socks5Server.java:231-234 | a CONNECT to 127.0.0.1:443 parses to that address and port |
| `Messages.IPv6Example` | simplesocks/src/main/java/org/connectbot/simplesocks/Socks5Server.java:245-248 | sixteen zero address bytes parse to the all-zero IPv6 address without error |
| `Messages.FailureExamples` | simplesocks/src/main/java/org/connectbot/simplesocks/Socks5Server.java:221-234 | command 0x03 returns false without an exception; an IPv4 address cut after two bytes fails with end of stream |
| `Server.OffersNoAuth` | simplesocks/src/main/java/org/connectbot/simplesocks/Socks5Server.java:182-188 | the scan with early exit finds a method exactly when 0x00 is among the offered methods |
| `Server.Socks5Server.constructor` | simplesocks/src/main/java/org/connectbot/simplesocks/Socks5Server.java:161-166 | a new server is at the start of its input, has written nothing, and has null fields and port -1 |
| `Server.Socks5Server.Read` | simplesocks/src/main/java/org/connectbot/simplesocks/Socks5Server.java:178 | a single-byte read returns the next byte and advances, or returns -1 at end of stream |
| `Server.Socks5Server.ReadFully` | simplesocks/src/main/java/org/connectbot/simplesocks/Socks5Server.java:180 | readFully returns exactly the next n bytes, or fails with end of stream after consuming the rest |
| `Server.Socks5Server.CheckProtocolVersion` | simplesocks/src/main/java/org/connectbot/simplesocks/Socks5Server.java:201-205 | consumes one byte, and fails with the unsupported-protocol error unless it is 0x05 |
| `Server.Socks5Server.AcceptAuthentication` | simplesocks/src/main/java/org/connectbot/simplesocks/Socks5Server.java:175-199 | result, cursor and appended output are those of `Handshake.Negotiate`, and the fields are untouched |
| `Server.Socks5Server.ReadAddressField` | simplesocks/src/main/java/org/connectbot/simplesocks/Socks5Server.java:230-251 | result, cursor and fields are those of `Handshake.ReadAddress` |
| `Server.Socks5Server.ReadRequest` | simplesocks/src/main/java/org/connectbot/simplesocks/Socks5Server.java:216-256 | result, cursor and fields are those of `Handshake.ParseRequest`; nothing is written |
| `Server.Socks5Server.SendReply` | simplesocks/src/main/java/org/connectbot/simplesocks/Socks5Server.java:266-276 | appends exactly the ten bytes of `Handshake.Reply` and nothing else |
| `Server.Socks5Server.GetAddress` | simplesocks/src/main/java/org/connectbot/simplesocks/Socks5Server.java:282-284 | the address, when set, is 4 or 16 bytes |
| `Server.Socks5Server.GetHostName` | simplesocks/src/main/java/org/connectbot/simplesocks/Socks5Server.java:286-288 | the host name, when set, is US-ASCII of at most 255 characters |
| `Server.Socks5Server.GetPort` | simplesocks/src/main/java/org/connectbot/simplesocks/Socks5Server.java:290-292 | the port is -1 (unset, or the stream ended before it) or in 0..65535 |

`Server.Socks5Server.GetCommand` (lines 278-280) is modelled as a plain read of the field. There is nothing about it to state beyond its type.

## Left out

- Output failures: `out.write` is modelled as always succeeding, appending to an in-memory sequence. An IOException from the output stream is not modelled.
- Blocking, buffering and timeouts of the real streams: the input is a fixed byte sequence, and a read that would block on a live socket here sees the end of the sequence.
- `InetAddress.getByAddress`: an address is its raw 4 or 16 bytes. No `InetAddress` object is built, and no name is resolved. For an IPv4-mapped IPv6 address (`::ffff:a.b.c.d`) Java returns a 4-byte IPv4 address. The model keeps all 16 bytes, so "type 4 gives 16 bytes" holds of the raw bytes, not of the Java object.
- Input failures other than end of stream: an IOException thrown by the input stream itself, such as a reset connection, is not modelled. The input is a fixed byte sequence that can only run out.
- `CharsetDecoder`: it is modelled as the "every byte below 0x80" check plus the byte-to-character mapping.
- Relaying traffic after SUCCESS, and any DNS resolution: these happen outside this class.
- connectbot/src/main/java/com/lamerman/FileDialog.java: an Android file-picker screen. Its logic is UI state and filesystem listing.
- connectbot/src/main/java/com/iiordanov/bssh/util/FileChooser.java: launches file-manager applications through Android intents. It is platform plumbing only.
