/** The two one-byte wire enumerations of the handshake: the request command and the
    reply code. */
module Codes {
  import opened Wire

  /** What a client asks the server to do with the target address. */
  datatype Command = Connect | Bind

  /** The wire code of a command. */
  function CommandNumber(c: Command): (n: int)
    ensures n == 1 || n == 2
  {
    match c
    case Connect => 0x01
    case Bind => 0x02
  }

  /** The command a wire code stands for, None (null in the source) for any other code. */
  function FromCommandNumber(n: int): (c: Option<Command>)
    ensures c.Some? <==> n == 1 || n == 2
    ensures c.Some? ==> CommandNumber(c.value) == n
  {
    if n == CommandNumber(Connect) then Some(Connect)
    else if n == CommandNumber(Bind) then Some(Bind)
    else None
  }

  lemma CommandNumberRoundTrip(c: Command)
    ensures FromCommandNumber(CommandNumber(c)) == Some(c)
  {
  }

  /** The status the server reports after attempting the request. */
  datatype ResponseCode =
    | Success
    | GeneralFailure
    | RulesetDenied
    | NetworkUnreachable
    | HostUnreachable
    | ConnectionRefused
    | TtlExpired
    | CommandNotSupported
    | AddressTypeNotSupported

  /** The reply codes in declaration order. */
  const ResponseCodes: seq<ResponseCode> := [
    Success, GeneralFailure, RulesetDenied, NetworkUnreachable, HostUnreachable,
    ConnectionRefused, TtlExpired, CommandNotSupported, AddressTypeNotSupported
  ]

  /** The wire byte of a reply code. */
  function Code(r: ResponseCode): (b: Byte)
    ensures b <= 0x08
  {
    match r
    case Success => 0x00
    case GeneralFailure => 0x01
    case RulesetDenied => 0x02
    case NetworkUnreachable => 0x03
    case HostUnreachable => 0x04
    case ConnectionRefused => 0x05
    case TtlExpired => 0x06
    case CommandNotSupported => 0x07
    case AddressTypeNotSupported => 0x08
  }

  /** The codes are 0x00..0x08 in declaration order, and so every reply code has its own byte. */
  lemma CodesInDeclarationOrder()
    ensures |ResponseCodes| == 9
    ensures forall i :: 0 <= i < |ResponseCodes| ==> Code(ResponseCodes[i]) as int == i
    ensures forall r :: r in ResponseCodes
  {
    forall r ensures r in ResponseCodes {
      match r
      case Success => assert r == ResponseCodes[0];
      case GeneralFailure => assert r == ResponseCodes[1];
      case RulesetDenied => assert r == ResponseCodes[2];
      case NetworkUnreachable => assert r == ResponseCodes[3];
      case HostUnreachable => assert r == ResponseCodes[4];
      case ConnectionRefused => assert r == ResponseCodes[5];
      case TtlExpired => assert r == ResponseCodes[6];
      case CommandNotSupported => assert r == ResponseCodes[7];
      case AddressTypeNotSupported => assert r == ResponseCodes[8];
    }
  }

  lemma CodeInjective(r: ResponseCode, s: ResponseCode)
    requires Code(r) == Code(s)
    ensures r == s
  {
  }
}
