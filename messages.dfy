/** The client's side of the wire format: the method offer and the request as a client
    encodes them, and the reply as a client decodes it. They are the inverses the
    server's parsing and encoding are checked against. */
module Messages {
  import opened Wire
  import opened Codes
  import opened Handshake

  /** Client to server: [0x05][N][N method bytes]. */
  function EncodeOffer(methods: seq<Byte>): (bytes: seq<Byte>)
    requires |methods| < 256
  {
    [Version, |methods| as Byte] + methods
  }

  /** The target of a request. */
  datatype Destination = IPv4(octets: seq<Byte>) | DomainName(name: string) | IPv6(octets: seq<Byte>)

  predicate WellFormed(d: Destination)
  {
    match d
    case IPv4(octets) => |octets| == 4
    case DomainName(name) => |name| < 256 && IsAsciiText(name)
    case IPv6(octets) => |octets| == 16
  }

  /** The address-type byte and address field of a destination. */
  function EncodeDestination(d: Destination): (bytes: seq<Byte>)
    requires WellFormed(d)
  {
    match d
    case IPv4(octets) => [AtypIPv4 as Byte] + octets
    case DomainName(name) => [AtypDomainName as Byte, |name| as Byte] + EncodeAscii(name)
    case IPv6(octets) => [AtypIPv6 as Byte] + octets
  }

  /** Client to server: [0x05][cmd][0x00][atyp][address][port, big-endian]. */
  function EncodeRequest(cmd: Command, dest: Destination, port: nat): (bytes: seq<Byte>)
    requires WellFormed(dest) && port < 0x1_0000
  {
    [Version, CommandNumber(cmd) as Byte, 0x00] + EncodeDestination(dest) + [(port / 256) as Byte, (port % 256) as Byte]
  }

  /** The fields after reading the address of dest: the field of the other kind keeps its value. */
  function WithDestination(f: Fields, dest: Destination): Fields
  {
    match dest
    case IPv4(octets) => f.(address := Some(octets))
    case DomainName(name) => f.(hostName := Some(name))
    case IPv6(octets) => f.(address := Some(octets))
  }

  /** The fields after a request for cmd, dest and port. */
  function ExpectedFields(prior: Fields, cmd: Command, dest: Destination, port: nat): Fields
  {
    WithDestination(prior, dest).(command := Some(cmd), port := port)
  }

  /** The reply code a client reads from a 10-byte reply with a wildcard bound address;
      None for anything else. */
  function DecodeReply(bytes: seq<Byte>): (r: Option<ResponseCode>)
  {
    if |bytes| == 10 && bytes[0] == Version && bytes[2] == 0x00 && bytes[3] == 0x01
       && bytes[4..] == [0, 0, 0, 0, 0, 0] && bytes[1] <= 0x08
    then Some(ResponseCodes[bytes[1]])
    else None
  }

  /** Negotiation of a well-formed offer: it consumes exactly 2 + N bytes and answers
      {0x05, 0x00} exactly when 0x00 is offered, {0x05, 0xFF} otherwise. */
  lemma {:induction false} NegotiateOffer(prefix: seq<Byte>, methods: seq<Byte>, rest: seq<Byte>)
    requires |methods| < 256
    ensures Negotiate(prefix + EncodeOffer(methods) + rest, |prefix|) ==
      AuthStep(Ok(0x00 in methods), |prefix| + 2 + |methods|,
               [0x05, if 0x00 in methods then 0x00 else 0xFF])
  {
    var input := prefix + EncodeOffer(methods) + rest;
    var p := |prefix|;
    assert input[p] == 0x05 && input[p + 1] as int == |methods|;
    assert input[p + 2 .. p + 2 + |methods|] == methods;
  }

  /** With no methods offered negotiation always fails, answering {0x05, 0xFF}. */
  lemma NegotiateNoMethods(input: seq<Byte>, pos: nat)
    requires pos + 2 <= |input| && input[pos] == 0x05 && input[pos + 1] == 0
    ensures Negotiate(input, pos) == AuthStep(Ok(false), pos + 2, [0x05, 0xFF])
  {
    assert input[pos + 2 .. pos + 2] == [];
  }

  /** The address branch reads back exactly the encoded destination found at q. */
  lemma ReadDestination(input: seq<Byte>, q: nat, dest: Destination, f: Fields)
    requires WellFormed(dest)
    requires q + |EncodeDestination(dest)| <= |input|
    requires input[q .. q + |EncodeDestination(dest)|] == EncodeDestination(dest)
    ensures ReadAddress(input, q + 1, input[q] as int, f) ==
      RequestStep(Ok(true), q + |EncodeDestination(dest)|, WithDestination(f, dest))
  {
    var enc := EncodeDestination(dest);
    assert input[q] == enc[0];
    match dest
    case IPv4(octets) =>
      assert input[q + 1 .. q + 5] == enc[1..] == octets;
    case IPv6(octets) =>
      assert input[q + 1 .. q + 17] == enc[1..] == octets;
    case DomainName(name) =>
      assert input[q + 1] == enc[1];
      assert input[q + 2 .. q + 2 + |name|] == enc[2..] == EncodeAscii(name);
      DecodeEncodeAscii(name);
  }

  /** Reading back a well-formed request yields its command, its address or host name,
      and its port, consuming exactly its bytes and leaving the other field unchanged. */
  lemma ParseRequestRoundTrip(prefix: seq<Byte>, cmd: Command, dest: Destination,
                              port: nat, rest: seq<Byte>, prior: Fields)
    requires WellFormed(dest) && port < 0x1_0000
    ensures var bytes := EncodeRequest(cmd, dest, port);
      ParseRequest(prefix + bytes + rest, |prefix|, prior) ==
        RequestStep(Ok(true), |prefix| + |bytes|, ExpectedFields(prior, cmd, dest, port))
  {
    var bytes := EncodeRequest(cmd, dest, port);
    var input := prefix + bytes + rest;
    var p := |prefix|;
    var enc := EncodeDestination(dest);
    var end := p + 3 + |enc|;
    assert input[p .. p + |bytes|] == bytes;
    assert input[p] == 0x05 && input[p + 1] as int == CommandNumber(cmd) && input[p + 2] == 0;
    assert input[p + 3 .. end] == enc;
    assert input[end] as int == port / 256 && input[end + 1] as int == port % 256;
    var f := prior.(command := Some(cmd));
    ParseRequestHeader(input, p, prior);
    ReadDestination(input, p + 3, dest, f);
  }

  /** The client reads back the code the server put in its reply. */
  lemma DecodeReplyRoundTrip(r: ResponseCode)
    ensures DecodeReply(Reply(r)) == Some(r)
  {
    CodesInDeclarationOrder();
  }

  /** Every reply is ten bytes and no two reply codes produce the same reply. */
  lemma ReplyShape(r: ResponseCode, s: ResponseCode)
    ensures |Reply(r)| == 10 && Reply(r)[0] == 0x05 && Reply(r)[1] == Code(r)
    ensures Reply(r)[2..] == [0x00, 0x01, 0, 0, 0, 0, 0, 0]
    ensures Reply(r) == Reply(s) ==> r == s
  {
    if Reply(r) == Reply(s) {
      assert Reply(r)[1] == Reply(s)[1];
      CodeInjective(r, s);
    }
  }

  /** The source's handling of an unknown address type: no address bytes are consumed,
      yet two "port" bytes are still read, so the port is taken from the first two bytes
      after the address-type byte. */
  lemma UnknownAddressTypeReadsPort(input: seq<Byte>, pos: nat, prior: Fields)
    requires pos + 6 <= |input| && input[pos] == 0x05
    requires input[pos + 3] != 0x01 && input[pos + 3] != 0x03 && input[pos + 3] != 0x04
    ensures ParseRequest(input, pos, prior) ==
      RequestStep(Ok(false), pos + 6,
        prior.(command := FromCommandNumber(input[pos + 1] as int),
               port := input[pos + 4] as int * 256 + input[pos + 5] as int))
  {
  }

  /** The request 0x05 0x01 0x00 0x03 0x09 "localhost" 0x01 0xBB names localhost:443. */
  lemma LocalhostExample()
    ensures ParseRequest([0x05, 0x01, 0x00, 0x03, 0x09, 0x6C, 0x6F, 0x63, 0x61, 0x6C, 0x68, 0x6F, 0x73, 0x74, 0x01, 0xBB],
                         0, InitialFields) ==
      RequestStep(Ok(true), 16, Fields(Some(Connect), None, Some("localhost"), 443))
  {
    var input: seq<Byte> := [0x05, 0x01, 0x00, 0x03, 0x09, 0x6C, 0x6F, 0x63, 0x61, 0x6C, 0x68, 0x6F, 0x73, 0x74, 0x01, 0xBB];
    var name := "localhost";
    assert IsAsciiText(name);
    assert EncodeAscii(name) == input[5..14];
    assert input == [] + EncodeRequest(Connect, DomainName(name), 443) + [];
    ParseRequestRoundTrip([], Connect, DomainName(name), 443, [], InitialFields);
  }

  /** An IPv4 CONNECT to 127.0.0.1:443. */
  lemma IPv4Example()
    ensures ParseRequest([0x05, 0x01, 0x00, 0x01, 127, 0, 0, 1, 0x01, 0xBB], 0, InitialFields) ==
      RequestStep(Ok(true), 10, Fields(Some(Connect), Some([127, 0, 0, 1]), None, 443))
  {
    var input: seq<Byte> := [0x05, 0x01, 0x00, 0x01, 127, 0, 0, 1, 0x01, 0xBB];
    assert input == [] + EncodeRequest(Connect, IPv4([127, 0, 0, 1]), 443) + [];
    ParseRequestRoundTrip([], Connect, IPv4([127, 0, 0, 1]), 443, [], InitialFields);
  }

  /** An IPv6 request for the all-zero address parses without error. */
  lemma IPv6Example()
    ensures ParseRequest([0x05, 0x01, 0x00, 0x04] + seq(16, _ => 0) + [0x00, 0x50], 0, InitialFields) ==
      RequestStep(Ok(true), 22, Fields(Some(Connect), Some(seq(16, _ => 0)), None, 80))
  {
    var zero: seq<Byte> := seq(16, _ => 0);
    var input: seq<Byte> := [0x05, 0x01, 0x00, 0x04] + zero + [0x00, 0x50];
    assert input == [] + EncodeRequest(Connect, IPv6(zero), 80) + [];
    ParseRequestRoundTrip([], Connect, IPv6(zero), 80, [], InitialFields);
  }

  /** An unknown command byte makes the request incorrect without an exception, and an
      IPv4 address cut off after two bytes is an end-of-stream failure. */
  lemma FailureExamples()
    ensures ParseRequest([0x05, 0x03, 0x00, 0x01, 127, 0, 0, 1, 0x01, 0xBB], 0, InitialFields) ==
      RequestStep(Ok(false), 10, Fields(None, Some([127, 0, 0, 1]), None, 443))
    ensures ParseRequest([0x05, 0x01, 0x00, 0x01, 127, 0], 0, InitialFields) ==
      RequestStep(Err(EndOfStream), 6, Fields(Some(Connect), None, None, -1))
  {
    var input := [0x05, 0x03, 0x00, 0x01, 127, 0, 0, 1, 0x01, 0xBB];
    assert input[4 .. 8] == [127, 0, 0, 1];
  }
}
