/** Message framing over byte streams: Content-Length headers (DAP, MCP) and one JSON object per line (MCP). */
module Framing {
  import opened Options
  import opened Utf8
  import Decimal

  const USIZE_MAX: nat := 0xFFFF_FFFF_FFFF_FFFF

  const NEWLINE: Byte := 0x0A

  // ----- Text helpers -----

  /** The Unicode White_Space property. */
  predicate IsSpace(c: char) {
    var u := c as int;
    || 0x09 <= u <= 0x0D || u == 0x20 || u == 0x85 || u == 0xA0 || u == 0x1680
    || 0x2000 <= u <= 0x200A || u == 0x2028 || u == 0x2029 || u == 0x202F || u == 0x205F || u == 0x3000
  }

  predicate IsBlank(s: string) {
    forall i :: 0 <= i < |s| ==> IsSpace(s[i])
  }

  function TrimStart(s: string): string {
    if s != "" && IsSpace(s[0]) then TrimStart(s[1..]) else s
  }

  function TrimEnd(s: string): string {
    if s != "" && IsSpace(s[|s| - 1]) then TrimEnd(s[..|s| - 1]) else s
  }

  function Trim(s: string): string {
    TrimEnd(TrimStart(s))
  }

  /** `trim_end_matches(['\r', '\n'])`. */
  function TrimEol(s: string): string {
    if s != "" && s[|s| - 1] in {'\r', '\n'} then TrimEol(s[..|s| - 1]) else s
  }

  /** The characters with the Unicode White_Space property, one by one. */
  lemma SpaceExact(c: char)
    ensures IsSpace(c) <==> c as int in {
              0x0009, 0x000A, 0x000B, 0x000C, 0x000D, 0x0020, 0x0085, 0x00A0, 0x1680, 0x2000, 0x2001, 0x2002, 0x2003,
              0x2004, 0x2005, 0x2006, 0x2007, 0x2008, 0x2009, 0x200A, 0x2028, 0x2029, 0x202F, 0x205F, 0x3000}
  {}

  // ----- Streams -----

  /** The number of bytes up to and including the first newline, or all of them. */
  function LineLength(b: Bytes): (n: nat)
    ensures n <= |b| && (b != [] ==> n > 0)
  {
    if b == [] then 0 else if b[0] == NEWLINE then 1 else 1 + LineLength(b[1..])
  }

  datatype Error = BadText | BadLength | MissingLength | ShortPayload

  class Reader {
    var rest: Bytes

    constructor (bytes: Bytes)
      ensures rest == bytes
    {
      rest := bytes;
    }

    /** `read_line`: an empty line means the end of the stream. */
    method ReadLine() returns (line: Result<string, Error>)
      modifies this
      ensures rest == old(rest)[LineLength(old(rest))..]
      ensures line == DecodeText(old(rest)[..LineLength(old(rest))])
    {
      var n := LineLength(rest);
      line := DecodeText(rest[..n]);
      rest := rest[n..];
    }

    method ReadExact(n: nat) returns (bytes: Result<Bytes, Error>)
      modifies this
      ensures if n <= |old(rest)| then bytes == Ok(old(rest)[..n]) && rest == old(rest)[n..]
              else bytes == Err(ShortPayload)
    {
      if n > |rest| {
        return Err(ShortPayload);
      }
      bytes := Ok(rest[..n]);
      rest := rest[n..];
    }
  }

  function DecodeText(b: Bytes): Result<string, Error> {
    match Decode(b) case Some(s) => Ok(s) case None => Err(BadText)
  }

  // ----- Headers -----

  const CONTENT_LENGTH := "Content-Length:"

  /** What one header line makes of the length seen so far. */
  function HeaderLine(line: string, length: Option<nat>): Result<Option<nat>, Error> {
    if CONTENT_LENGTH <= line then
      match Decimal.ParseUnsigned(Trim(line[|CONTENT_LENGTH|..]), USIZE_MAX)
      case Some(n) => Ok(Some(n))
      case None => Err(BadLength)
    else Ok(length)
  }

  datatype Headers = Eof | Malformed(error: Error) | Complete(length: Option<nat>, rest: Bytes)

  /** Header lines up to an empty one; the last length wins. */
  function ReadHeaders(b: Bytes, length: Option<nat>): (headers: Headers)
    ensures headers.Complete? ==> |headers.rest| < |b|
    decreases |b|
  {
    if b == [] then Eof
    else
      var n := LineLength(b);
      match DecodeText(b[..n])
      case Err(error) => Malformed(error)
      case Ok(line) =>
        var trimmed := TrimEol(line);
        if trimmed == "" then Complete(length, b[n..])
        else match HeaderLine(trimmed, length)
          case Err(error) => Malformed(error)
          case Ok(length') => ReadHeaders(b[n..], length')
  }

  /** A message and the unread bytes, the end of the stream, or a failure. */
  datatype Outcome = Message(payload: string, rest: Bytes) | End | Failure(error: Error)

  function ReadPayload(headers: Headers): (outcome: Outcome)
    ensures outcome.Message? ==> headers.Complete? && |outcome.rest| <= |headers.rest|
  {
    match headers
    case Eof => End
    case Malformed(error) => Failure(error)
    case Complete(None, _) => Failure(MissingLength)
    case Complete(Some(n), rest) =>
      if n > |rest| then Failure(ShortPayload)
      else match DecodeText(rest[..n])
        case Err(error) => Failure(error)
        case Ok(payload) => Message(payload, rest[n..])
  }

  function ReadDap(b: Bytes): (outcome: Outcome)
    ensures outcome.Message? ==> |outcome.rest| < |b|
  {
    ReadPayload(ReadHeaders(b, None))
  }

  /** Reads header lines from where the reader stands. */
  method ReadHeaderBlock(reader: Reader, initial: Option<nat>) returns (end: bool, r: Result<Option<nat>, Error>)
    modifies reader
    ensures match ReadHeaders(old(reader.rest), initial)
            case Eof => end && r.Ok?
            case Malformed(error) => !end && r == Err(error)
            case Complete(length, rest) => !end && r == Ok(length) && reader.rest == rest
  {
    var length := initial;
    while true
      invariant ReadHeaders(reader.rest, length) == ReadHeaders(old(reader.rest), initial)
      decreases |reader.rest|
    {
      ghost var before := reader.rest;
      var read := reader.ReadLine();
      if read.Err? {
        return false, Err(read.error);
      }
      var line := read.value;
      if line == "" {
        EmptyText(before);
        return true, Ok(None);
      }
      var trimmed := TrimEol(line);
      if trimmed == "" {
        return false, Ok(length);
      }
      var updated := HeaderLine(trimmed, length);
      if updated.Err? {
        return false, Err(updated.error);
      }
      length := updated.value;
    }
  }

  /** A line decodes to nothing only at the end of the stream. */
  lemma EmptyText(b: Bytes)
    requires DecodeText(b[..LineLength(b)]) == Ok("")
    ensures b == []
  {
    if b != [] {
      EncodeDecode(b[..LineLength(b)]);
    }
  }

  method ReadBody(reader: Reader, end: bool, length: Result<Option<nat>, Error>)
    returns (r: Result<Option<string>, Error>)
    modifies reader
    ensures var headers := if length.Err? then Malformed(length.error)
                           else if end then Eof
                           else Complete(length.value, old(reader.rest));
            match ReadPayload(headers)
            case End => r == Ok(None)
            case Failure(error) => r == Err(error)
            case Message(payload, rest) => r == Ok(Some(payload)) && reader.rest == rest
  {
    if length.Err? {
      return Err(length.error);
    }
    if end {
      return Ok(None);
    }
    if length.value.None? {
      return Err(MissingLength);
    }
    var buffer := reader.ReadExact(length.value.value);
    if buffer.Err? {
      return Err(buffer.error);
    }
    match DecodeText(buffer.value) {
      case Err(error) => return Err(error);
      case Ok(payload) => return Ok(Some(payload));
    }
  }

  /** `read_dap_message`. */
  method ReadDapMessage(reader: Reader) returns (r: Result<Option<string>, Error>)
    modifies reader
    ensures match ReadDap(old(reader.rest))
            case End => r == Ok(None)
            case Failure(error) => r == Err(error)
            case Message(payload, rest) => r == Ok(Some(payload)) && reader.rest == rest
  {
    var end, length := ReadHeaderBlock(reader, None);
    r := ReadBody(reader, end, length);
  }

  // ----- MCP: either framing, told apart by the first line that is not blank -----

  datatype FirstLine = NoLine | BadLine(error: Error) | Line(text: string, rest: Bytes)

  function SkipBlankLines(b: Bytes): (first: FirstLine)
    ensures first.Line? ==> |first.rest| < |b|
    decreases |b|
  {
    if b == [] then NoLine
    else
      var n := LineLength(b);
      match DecodeText(b[..n])
      case Err(error) => BadLine(error)
      case Ok(line) => if Trim(line) != "" then Line(line, b[n..]) else SkipBlankLines(b[n..])
  }

  function ReadMcp(b: Bytes): (outcome: Outcome)
    ensures outcome.Message? ==> |outcome.rest| < |b|
  {
    match SkipBlankLines(b)
    case NoLine => End
    case BadLine(error) => Failure(error)
    case Line(line, rest) =>
      var trimmed := Trim(line);
      if "{" <= trimmed then Message(trimmed, rest)
      else match HeaderLine(trimmed, None)
        case Err(error) => Failure(error)
        case Ok(length) => ReadPayload(ReadHeaders(rest, length))
  }

  /** `read_message`. */
  method ReadMessage(reader: Reader) returns (r: Result<Option<string>, Error>)
    modifies reader
    ensures match ReadMcp(old(reader.rest))
            case End => r == Ok(None)
            case Failure(error) => r == Err(error)
            case Message(payload, rest) => r == Ok(Some(payload)) && reader.rest == rest
  {
    var line := "";
    while Trim(line) == ""
      invariant Trim(line) == "" ==> SkipBlankLines(reader.rest) == SkipBlankLines(old(reader.rest))
      invariant Trim(line) != "" ==> SkipBlankLines(old(reader.rest)) == Line(line, reader.rest)
      decreases |reader.rest|, Trim(line) == ""
    {
      ghost var before := reader.rest;
      var read := reader.ReadLine();
      if read.Err? {
        return Err(read.error);
      }
      if read.value == "" {
        EmptyText(before);
        return Ok(None);
      }
      line := read.value;
    }
    var trimmed := Trim(line);
    if "{" <= trimmed {
      return Ok(Some(trimmed));
    }
    var first := HeaderLine(trimmed, None);
    if first.Err? {
      return Err(first.error);
    }
    var end, length := ReadHeaderBlock(reader, first.value);
    r := ReadBody(reader, end, length);
  }

  // ----- Whole sessions -----

  datatype Protocol = Dap | Mcp

  ghost function Read(protocol: Protocol, b: Bytes): (outcome: Outcome)
    ensures outcome.Message? ==> |outcome.rest| < |b|
  {
    match protocol case Dap => ReadDap(b) case Mcp => ReadMcp(b)
  }

  /** The messages read until the stream ends, or fails. */
  datatype Session = Session(messages: seq<string>, failed: bool)

  ghost function ReadAll(protocol: Protocol, b: Bytes): Session
    decreases |b|
  {
    match Read(protocol, b)
    case End => Session([], false)
    case Failure(_) => Session([], true)
    case Message(payload, rest) =>
      var later := ReadAll(protocol, rest);
      Session([payload] + later.messages, later.failed)
  }

  // ----- Writers -----

  function Header(n: nat): string {
    "Content-Length: " + Decimal.Print(n) + "\r\n\r\n"
  }

  function Frame(payload: string): Bytes {
    Encode(Header(|Encode(payload)|)) + Encode(payload)
  }

  class Writer {
    var output: Bytes

    constructor ()
      ensures output == []
    {
      output := [];
    }

    method WriteAll(bytes: Bytes)
      modifies this
      ensures output == old(output) + bytes
    {
      output := output + bytes;
    }
  }

  /** `write_dap_message`, on the serialised value. */
  method WriteDapMessage(writer: Writer, payload: string)
    modifies writer
    ensures writer.output == old(writer.output) + Frame(payload)
  {
    var bytes := Encode(payload);
    writer.WriteAll(Encode(Header(|bytes|)));
    writer.WriteAll(bytes);
  }

  /** `write_message`, on the serialised value: one line. */
  method WriteMessage(writer: Writer, payload: string)
    modifies writer
    ensures writer.output == old(writer.output) + Encode(payload + "\n")
  {
    EncodeAppend(payload, "\n");
    EncodeNewline();
    writer.WriteAll(Encode(payload));
    writer.WriteAll([NEWLINE]);
  }

  lemma EncodeNewline()
    ensures Encode("\n") == [NEWLINE]
  {}
}
