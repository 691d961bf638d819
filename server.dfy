/** The server object: one client connection's input stream (a byte sequence and a
    cursor), its output stream (the bytes written so far) and the request fields that
    readRequest fills in. Each operation is proved to do to this state what the
    corresponding function of module Handshake says. */
module Server {
  import opened Wire
  import opened Codes
  import opened Handshake

  /** The scan of acceptAuthentication over the offered methods, stopping at the first
      "no authentication required" code. */
  method OffersNoAuth(methods: seq<Byte>) returns (success: bool)
    ensures success <==> NoAuthRequired in methods
  {
    success := false;
    for i := 0 to |methods|
      invariant !success
      invariant forall j :: 0 <= j < i ==> methods[j] != NoAuthRequired
    {
      if methods[i] == NoAuthRequired {
        success := true;
        break;
      }
    }
  }

  class Socks5Server {
    /** The bytes the client sends. */
    const input: seq<Byte>
    /** How many of them have been read. */
    var pos: nat
    /** The bytes written to the client so far. */
    var output: seq<Byte>

    var command: Option<Command>
    var address: Option<seq<Byte>>
    var hostName: Option<string>
    var port: int

    ghost predicate Valid()
      reads this
    {
      pos <= |input| && FieldsValid(Fields(command, address, hostName, port))
    }

    /** The request fields as one value. */
    function Parsed(): Fields
      reads this
    {
      Fields(command, address, hostName, port)
    }

    constructor (input: seq<Byte>)
      ensures Valid()
      ensures this.input == input && pos == 0 && output == [] && Parsed() == InitialFields
    {
      this.input := input;
      pos := 0;
      output := [];
      command, address, hostName, port := None, None, None, -1;
    }

    /** InputStream.read(): the next byte, or -1 without moving at end of stream. */
    method Read() returns (b: int)
      requires Valid()
      modifies this`pos
      ensures Valid()
      ensures b == ReadAt(input, old(pos)) && pos == Advance(input, old(pos))
    {
      if pos < |input| {
        b := input[pos] as int;
        pos := pos + 1;
      } else {
        b := -1;
      }
    }

    /** DataInputStream.readFully into an n-byte array: all n bytes, or end of stream
      after consuming whatever was left. */
    method ReadFully(n: nat) returns (r: Result<seq<Byte>>)
      requires Valid()
      modifies this`pos
      ensures Valid()
      ensures old(pos) + n <= |input| ==> r == Ok(input[old(pos) .. old(pos) + n]) && pos == old(pos) + n
      ensures old(pos) + n > |input| ==> r == Err(EndOfStream) && pos == |input|
    {
      if pos + n <= |input| {
        r := Ok(input[pos .. pos + n]);
        pos := pos + n;
      } else {
        r := Err(EndOfStream);
        pos := |input|;
      }
    }

    /** Reads the version byte and fails unless it is 0x05. */
    method CheckProtocolVersion() returns (r: Result<()>)
      requires Valid()
      modifies this`pos
      ensures Valid()
      ensures pos == Advance(input, old(pos))
      ensures r.Ok? <==> ReadAt(input, old(pos)) == Version as int
      ensures r.Err? ==> r.failure == UnsupportedProtocol
    {
      var v := Read();
      if v != Version as int {
        return Err(UnsupportedProtocol);
      }
      return Ok(());
    }

    /** Method negotiation: reads the offer and writes the two-byte answer. */
    method AcceptAuthentication() returns (r: Result<bool>)
      requires Valid()
      modifies this`pos, this`output
      ensures Valid()
      ensures var o := Negotiate(input, old(pos));
        r == o.result && pos == o.next && output == old(output) + o.reply
    {
      var v := CheckProtocolVersion();
      if v.Err? {
        return Err(v.failure);
      }
      var numMethods := Read();
      if numMethods == -1 {
        // new byte[-1]
        return Err(NegativeArraySize);
      }
      var methods := ReadFully(numMethods);
      if methods.Err? {
        return Err(methods.failure);
      }
      var success := OffersNoAuth(methods.value);
      output := output + [Version, if success then NoAuthRequired else NoAcceptableMethods];
      return Ok(success);
    }

    /** The address branch of readRequest for address type atype; Ok(false) for an
      unknown type, which reads nothing. */
    method ReadAddressField(atype: int) returns (r: Result<bool>)
      requires Valid()
      modifies this`pos, this`address, this`hostName
      ensures Valid()
      ensures var o := ReadAddress(input, old(pos), atype, old(Parsed()));
        r == o.result && pos == o.next && Parsed() == o.fields
    {
      if atype == AtypIPv4 {
        var bytes := ReadFully(4);
        if bytes.Err? {
          return Err(bytes.failure);
        }
        address := Some(bytes.value);
      } else if atype == AtypDomainName {
        var len := Read();
        if len == -1 {
          // new byte[-1]
          return Err(NegativeArraySize);
        }
        var bytes := ReadFully(len);
        if bytes.Err? {
          return Err(bytes.failure);
        }
        if !IsAscii(bytes.value) {
          return Err(MalformedInput);
        }
        hostName := Some(DecodeAscii(bytes.value));
      } else if atype == AtypIPv6 {
        var bytes := ReadFully(16);
        if bytes.Err? {
          return Err(bytes.failure);
        }
        address := Some(bytes.value);
      } else {
        return Ok(false);
      }
      return Ok(true);
    }

    /** Reads the connection request into the fields; Ok(false) for a request with an
      unknown command, a non-zero reserved byte or an unknown address type. */
    method ReadRequest() returns (r: Result<bool>)
      requires Valid()
      modifies this`pos, this`command, this`address, this`hostName, this`port
      ensures Valid()
      ensures var o := ParseRequest(input, old(pos), old(Parsed()));
        r == o.result && pos == o.next && Parsed() == o.fields
    {
      var v := CheckProtocolVersion();
      if v.Err? {
        return Err(v.failure);
      }
      var correct := true;
      var c := Read();
      command := FromCommandNumber(c);
      if command.None? {
        correct := false;
      }
      var reserved := Read();
      if reserved != 0x00 {
        correct := false;
      }
      var atype := Read();
      ghost var afterAtype, fieldsBefore := pos, Parsed();
      var known := ReadAddressField(atype);
      ghost var a := ReadAddress(input, afterAtype, atype, fieldsBefore);
      if known.Err? {
        return Err(known.failure);
      }
      if !known.value {
        correct := false;
      }
      var hi := Read();
      var lo := Read();
      port := PortFrom(hi, lo);
      assert correct == (command.Some? && reserved == 0 && a.result.value);
      return Ok(correct);
    }

    /** Writes the ten-byte reply carrying the given code. */
    method SendReply(response: ResponseCode)
      requires Valid()
      modifies this`output
      ensures Valid()
      ensures output == old(output) + Reply(response)
    {
      output := output + Reply(response);
    }

    function GetCommand(): Option<Command>
      reads this
    {
      command
    }

    /** The target address: when set, 4 bytes (IPv4) or 16 bytes (IPv6). */
    function GetAddress(): (a: Option<seq<Byte>>)
      reads this
      requires Valid()
      ensures a.Some? ==> |a.value| == 4 || |a.value| == 16
    {
      address
    }

    /** The target host name: when set, US-ASCII text of at most 255 characters. */
    function GetHostName(): (h: Option<string>)
      reads this
      requires Valid()
      ensures h.Some? ==> |h.value| < 256 && IsAsciiText(h.value)
    {
      hostName
    }

    /** The target port: -1 while unset or when the stream ended before it, otherwise a
      16-bit unsigned value. */
    function GetPort(): (p: int)
      reads this
      requires Valid()
      ensures p == -1 || 0 <= p < 0x1_0000
    {
      port
    }
  }
}
