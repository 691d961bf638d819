/** Byte streams as the SOCKS5 server sees them: an input sequence read through a
    cursor with the InputStream.read() convention for end of stream, the failures a
    handshake operation can end with, and US-ASCII text. */
module Wire {

  /** An unsigned octet, as InputStream.read() delivers it and as it goes on the wire. */
  newtype Byte = x: int | 0 <= x < 256

  datatype Option<+T> = None | Some(value: T)

  /** The exceptions that end a handshake operation abruptly. */
  datatype Failure =
    | UnsupportedProtocol  // the version byte was not 0x05 (an IOException)
    | EndOfStream          // readFully ran out of input (an EOFException)
    | NegativeArraySize    // a count byte read as -1 at end of stream was used as an array size
    | MalformedInput       // a domain-name byte was not US-ASCII (a MalformedInputException)

  /** Normal return with a value, or an exception. */
  datatype Result<+T> = Ok(value: T) | Err(failure: Failure)

  /** What InputStream.read() returns with the cursor at pos: the next byte, or -1 at end of stream. */
  function ReadAt(input: seq<Byte>, pos: nat): (b: int)
    ensures -1 <= b < 256
    ensures b == -1 <==> pos >= |input|
  {
    if pos < |input| then input[pos] as int else -1
  }

  /** The cursor after one read(): it moves only when there was a byte to read. */
  function Advance(input: seq<Byte>, pos: nat): nat
  {
    if pos < |input| then pos + 1 else pos
  }

  /** Java's `hi << 8 | lo` on two results of read(), in 32-bit two's complement.
      A -1 in `lo` sets every bit, giving -1; otherwise the low eight bits of `hi << 8`
      are zero, so the OR is a sum (for hi == -1 that is 0xFFFFFF00 + lo, i.e. lo - 256). */
  function PortFrom(hi: int, lo: int): (port: int)
    requires -1 <= hi < 256 && -1 <= lo < 256
    ensures -256 <= port < 0x1_0000
    ensures port >= 0 <==> hi >= 0 && lo >= 0
  {
    if lo == -1 then -1 else hi * 256 + lo
  }

  /** The bytes the strict US-ASCII decoder accepts. */
  predicate IsAscii(bytes: seq<Byte>)
  {
    forall i :: 0 <= i < |bytes| ==> bytes[i] < 0x80
  }

  /** Text made only of US-ASCII characters. */
  predicate IsAsciiText(s: string)
  {
    forall i :: 0 <= i < |s| ==> s[i] as int < 0x80
  }

  /** The US-ASCII decoder: byte b becomes the character with code b. */
  function DecodeAscii(bytes: seq<Byte>): (s: string)
    requires IsAscii(bytes)
    ensures |s| == |bytes| && IsAsciiText(s)
  {
    seq(|bytes|, i requires 0 <= i < |bytes| => (bytes[i] as int) as char)
  }

  /** The US-ASCII encoder, the inverse of DecodeAscii. */
  function EncodeAscii(s: string): (bytes: seq<Byte>)
    requires IsAsciiText(s)
    ensures |bytes| == |s| && IsAscii(bytes)
  {
    seq(|s|, i requires 0 <= i < |s| => s[i] as int as Byte)
  }

  lemma DecodeEncodeAscii(s: string)
    requires IsAsciiText(s)
    ensures DecodeAscii(EncodeAscii(s)) == s
  {
    var t := DecodeAscii(EncodeAscii(s));
    forall i | 0 <= i < |s| ensures t[i] == s[i] {
      assert t[i] as int == EncodeAscii(s)[i] as int == s[i] as int;
    }
  }
}
