/** What each handshake operation does to the streams and to the parsed fields, as
    functions of the input bytes and the cursor: method negotiation (section 3 of
    RFC 1928), the request (section 4) and the reply (section 6). End of stream
    follows InputStream.read(): -1, never an exception, except inside readFully. */
module Handshake {
  import opened Wire
  import opened Codes

  const Version: Byte := 0x05
  const NoAuthRequired: Byte := 0x00
  const NoAcceptableMethods: Byte := 0xFF
  const AtypIPv4 := 0x01
  const AtypDomainName := 0x03
  const AtypIPv6 := 0x04

  /** Outcome of method negotiation: result, the cursor afterwards, and the bytes written. */
  datatype AuthStep = AuthStep(result: Result<bool>, next: nat, reply: seq<Byte>)

  /** The fields the server fills in while reading a request; None is the source's null.
      An address is the raw 4 (IPv4) or 16 (IPv6) bytes. */
  datatype Fields = Fields(command: Option<Command>, address: Option<seq<Byte>>,
                           hostName: Option<string>, port: int)

  /** The fields of a freshly built server. */
  const InitialFields := Fields(None, None, None, -1)

  /** Outcome of (part of) a request: result, the cursor afterwards, and the fields. */
  datatype RequestStep = RequestStep(result: Result<bool>, next: nat, fields: Fields)

  /** What the fields can hold: a 4- or 16-byte address, an ASCII host name shorter than
      256 characters, and a port that is -1 (unset, or the stream ended before it) or a
      16-bit unsigned value. */
  predicate FieldsValid(f: Fields)
  {
    && (f.address.Some? ==> |f.address.value| == 4 || |f.address.value| == 16)
    && (f.hostName.Some? ==> |f.hostName.value| < 256 && IsAsciiText(f.hostName.value))
    && (f.port == -1 || 0 <= f.port < 0x1_0000)
  }

  /** acceptAuthentication: version byte, method count N, N method bytes, then a two-byte
      answer choosing "no authentication" when it is offered. */
  function Negotiate(input: seq<Byte>, pos: nat): (o: AuthStep)
    requires pos <= |input|
    ensures pos <= o.next <= |input|
  {
    if ReadAt(input, pos) != Version as int then
      AuthStep(Err(UnsupportedProtocol), Advance(input, pos), [])
    else
      var n := ReadAt(input, pos + 1);
      if n == -1 then
        AuthStep(Err(NegativeArraySize), pos + 1, [])
      else if pos + 2 + n > |input| then
        AuthStep(Err(EndOfStream), |input|, [])
      else
        var ok := NoAuthRequired in input[pos + 2 .. pos + 2 + n];
        AuthStep(Ok(ok), pos + 2 + n, [Version, if ok then NoAuthRequired else NoAcceptableMethods])
  }

  /** readFully of an n-byte numeric address. */
  function ReadInetAddress(input: seq<Byte>, pos: nat, n: nat, f: Fields): (o: RequestStep)
    requires pos <= |input|
    ensures pos <= o.next <= |input|
  {
    if pos + n <= |input| then RequestStep(Ok(true), pos + n, f.(address := Some(input[pos .. pos + n])))
    else RequestStep(Err(EndOfStream), |input|, f)
  }

  /** The address branch of readRequest, chosen by the address-type value atyp; Ok(false)
      for an unknown type, which consumes nothing. */
  function ReadAddress(input: seq<Byte>, pos: nat, atyp: int, f: Fields): (o: RequestStep)
    requires pos <= |input|
    ensures pos <= o.next <= |input|
  {
    if atyp == AtypIPv4 then ReadInetAddress(input, pos, 4, f)
    else if atyp == AtypDomainName then
      var len := ReadAt(input, pos);
      if len == -1 then RequestStep(Err(NegativeArraySize), pos, f)
      else if pos + 1 + len > |input| then RequestStep(Err(EndOfStream), |input|, f)
      else
        var name := input[pos + 1 .. pos + 1 + len];
        if IsAscii(name) then RequestStep(Ok(true), pos + 1 + len, f.(hostName := Some(DecodeAscii(name))))
        else RequestStep(Err(MalformedInput), pos + 1 + len, f)
    else if atyp == AtypIPv6 then ReadInetAddress(input, pos, 16, f)
    else RequestStep(Ok(false), pos, f)
  }

  /** The port read that ends readRequest, run when the address branch a returned
      normally; headerOk says whether the command and reserved bytes were acceptable. */
  function ReadPort(input: seq<Byte>, headerOk: bool, a: RequestStep): (o: RequestStep)
    requires a.next <= |input|
    ensures a.next <= o.next <= |input|
    ensures a.result.Ok? ==>
      && (o.fields.port >= 0 <==> a.next + 2 <= |input|)
      && (a.next + 2 <= |input| ==>
            o.next == a.next + 2 && o.fields.port == input[a.next] as int * 256 + input[a.next + 1] as int)
      && (o.fields.port < 0 ==> o.fields.port == -1 && o.next == |input|)
  {
    match a.result
    case Err(_) => a
    case Ok(known) =>
      var q := Advance(input, a.next);
      var port := PortFrom(ReadAt(input, a.next), ReadAt(input, q));
      RequestStep(Ok(headerOk && known), Advance(input, q), a.fields.(port := port))
  }

  /** readRequest: version, command, reserved byte, address type, address, port. The
      command field is assigned before the address is read, so it stays assigned when
      the address read fails. */
  function ParseRequest(input: seq<Byte>, pos: nat, prior: Fields): (o: RequestStep)
    requires pos <= |input|
    ensures pos <= o.next <= |input|
  {
    if ReadAt(input, pos) != Version as int then
      RequestStep(Err(UnsupportedProtocol), Advance(input, pos), prior)
    else
      var command := FromCommandNumber(ReadAt(input, pos + 1));
      var p2 := Advance(input, pos + 1);
      var reservedOk := ReadAt(input, p2) == 0;
      var p3 := Advance(input, p2);
      var a := ReadAddress(input, Advance(input, p3), ReadAt(input, p3), prior.(command := command));
      ReadPort(input, command.Some? && reservedOk, a)
  }

  /** With the four header bytes present, a request is its address branch at pos + 4
      followed by the port read. */
  lemma ParseRequestHeader(input: seq<Byte>, pos: nat, prior: Fields)
    requires pos + 4 <= |input| && input[pos] == 0x05
    ensures ParseRequest(input, pos, prior) ==
      ReadPort(input, FromCommandNumber(input[pos + 1] as int).Some? && input[pos + 2] == 0,
               ReadAddress(input, pos + 4, input[pos + 3] as int,
                           prior.(command := FromCommandNumber(input[pos + 1] as int))))
  {
  }

  /** sendReply: version, code, reserved, address type IPv4, address 0.0.0.0, port 0. */
  function Reply(r: ResponseCode): (bytes: seq<Byte>)
  {
    [Version, Code(r), 0x00, 0x01, 0x00, 0x00, 0x00, 0x00, 0x00, 0x00]
  }

  /** A version byte other than 0x05 (or end of stream) fails both operations after
      consuming that one byte, writes nothing and leaves the fields alone. */
  lemma BadVersionChangesNothing(input: seq<Byte>, pos: nat, prior: Fields)
    requires pos <= |input| && ReadAt(input, pos) != 0x05
    ensures Negotiate(input, pos) == AuthStep(Err(UnsupportedProtocol), Advance(input, pos), [])
    ensures ParseRequest(input, pos, prior) == RequestStep(Err(UnsupportedProtocol), Advance(input, pos), prior)
    ensures Advance(input, pos) <= pos + 1
  {
  }

  /** On a normal return negotiation consumed version, N and exactly N method bytes, and
      answered with exactly two bytes, 0x00 iff 0x00 was among the methods; on an
      exception it wrote nothing. */
  lemma NegotiateOutcome(input: seq<Byte>, pos: nat)
    requires pos <= |input|
    ensures var o := Negotiate(input, pos);
      && (o.result.Err? ==> o.reply == [])
      && (o.result.Ok? ==>
            && pos + 2 <= o.next && input[pos] == 0x05
            && o.next == pos + 2 + input[pos + 1] as int
            && (o.result.value <==> 0x00 in input[pos + 2 .. o.next])
            && o.reply == [0x05, if o.result.value then 0x00 else 0xFF])
  {
  }

  /** readRequest returns true iff the command byte is 1 or 2, the reserved byte is 0x00
      and the address type is 1, 3 or 4; a bad command or reserved byte does not stop it. */
  lemma RequestCorrectIff(input: seq<Byte>, pos: nat, prior: Fields)
    requires pos <= |input|
    ensures var o := ParseRequest(input, pos, prior);
      o.result.Ok? ==>
        (o.result.value <==>
          && (ReadAt(input, pos + 1) == 1 || ReadAt(input, pos + 1) == 2)
          && ReadAt(input, pos + 2) == 0
          && (ReadAt(input, pos + 3) == 1 || ReadAt(input, pos + 3) == 3 || ReadAt(input, pos + 3) == 4))
  {
  }

  /** Only the branch of the address type changes a field: the address only for type 1
      (4 bytes) or 4 (16 bytes), the host name only for type 3; the other is unchanged. */
  lemma RequestTouchesOneAddressField(input: seq<Byte>, pos: nat, prior: Fields)
    requires pos <= |input|
    ensures var o := ParseRequest(input, pos, prior);
      && (o.fields.address != prior.address ==>
            && o.result.Ok? && o.fields.address.Some?
            && (ReadAt(input, pos + 3) == 1 ==> |o.fields.address.value| == 4)
            && (ReadAt(input, pos + 3) == 4 ==> |o.fields.address.value| == 16)
            && (ReadAt(input, pos + 3) == 1 || ReadAt(input, pos + 3) == 4))
      && (o.fields.hostName != prior.hostName ==>
            o.result.Ok? && o.fields.hostName.Some? && ReadAt(input, pos + 3) == 3)
      && (o.result.Err? || o.fields.address == prior.address || o.fields.hostName == prior.hostName)
  {
  }

  /** The port is read from the two bytes that follow the address field: when both are
      there it is their big-endian value b0*256 + b1 in 0..65535 and the request ends
      right after them; when the stream ends before them it is -1. A request cut off
      inside its header ends with port -1 too. */
  lemma RequestPortBigEndian(input: seq<Byte>, pos: nat, prior: Fields)
    requires pos <= |input| && ReadAt(input, pos) == 0x05
    ensures var o := ParseRequest(input, pos, prior);
      var command := FromCommandNumber(ReadAt(input, pos + 1));
      && (pos + 4 > |input| ==>
            o == RequestStep(Ok(false), |input|, prior.(command := command, port := -1)))
      && (pos + 4 <= |input| ==>
            var a := ReadAddress(input, pos + 4, input[pos + 3] as int, prior.(command := command));
            a.result.Ok? ==>
              && o.result.Ok?
              && (o.fields.port >= 0 <==> a.next + 2 <= |input|)
              && (a.next + 2 <= |input| ==>
                    && o.next == a.next + 2
                    && o.fields.port == input[a.next] as int * 256 + input[a.next + 1] as int
                    && o.fields.port < 0x1_0000)
              && (a.next + 2 > |input| ==> o.fields.port == -1 && o.next == |input|))
  {
    if pos + 4 <= |input| {
      ParseRequestHeader(input, pos, prior);
    }
  }

  /** A domain name containing a byte at or above 0x80 is rejected by the strict US-ASCII
      decoder: the request fails with its own error after the name was consumed, and the
      host name keeps its prior value. */
  lemma NonAsciiHostFails(input: seq<Byte>, pos: nat, prior: Fields)
    requires pos + 5 <= |input| && input[pos] == 0x05 && input[pos + 3] == 0x03
    requires pos + 5 + input[pos + 4] as int <= |input|
    requires !IsAscii(input[pos + 5 .. pos + 5 + input[pos + 4] as int])
    ensures ParseRequest(input, pos, prior) ==
      RequestStep(Err(MalformedInput), pos + 5 + input[pos + 4] as int,
                  prior.(command := FromCommandNumber(input[pos + 1] as int)))
  {
  }

  /** A request that does not get through its address fails with end of stream and keeps
      the prior address, instead of yielding a truncated one. */
  lemma TruncatedAddressFails(input: seq<Byte>, pos: nat, prior: Fields)
    requires pos + 4 <= |input| && input[pos] == 0x05
    requires (input[pos + 3] == 0x01 && |input| < pos + 8) || (input[pos + 3] == 0x04 && |input| < pos + 20)
    ensures ParseRequest(input, pos, prior) ==
      RequestStep(Err(EndOfStream), |input|, prior.(command := FromCommandNumber(input[pos + 1] as int)))
  {
  }

  /** Reading a request keeps the fields within what they can hold. */
  lemma ParseRequestKeepsFieldsValid(input: seq<Byte>, pos: nat, prior: Fields)
    requires pos <= |input| && FieldsValid(prior)
    ensures FieldsValid(ParseRequest(input, pos, prior).fields)
  {
  }
}
