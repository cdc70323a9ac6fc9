/** What the framing readers make of whole streams: sessions read back, and streams cut short. */
module FramedStreams {
  import opened Options
  import opened Utf8
  import opened Framing
  import Decimal

  // ----- Lines -----

  lemma {:induction false} NewlineInEncoding(s: string)
    ensures NEWLINE in Encode(s) <==> '\n' in s
  {
    if s != "" {
      NewlineInEncoding(s[1..]);
    }
  }

  lemma {:induction false} LineLengthAt(a: Bytes, rest: Bytes)
    requires NEWLINE !in a
    ensures LineLength(a + [NEWLINE] + rest) == |a| + 1
  {
    var b := a + [NEWLINE] + rest;
    if a != [] {
      assert b[1..] == a[1..] + [NEWLINE] + rest;
      LineLengthAt(a[1..], rest);
    }
  }

  /** The first line of a stream, when its text and terminator are known. */
  lemma FirstLineIs(s: string, rest: Bytes)
    requires '\n' !in s
    ensures var b, n := Encode(s + "\n") + rest, |Encode(s + "\n")|;
            LineLength(b) == n && DecodeText(b[..n]) == Ok(s + "\n") && b[n..] == rest && b != []
  {
    NewlineInEncoding(s);
    EncodeAppend(s, "\n");
    EncodeNewline();
    LineLengthAt(Encode(s), rest);
    var line := Encode(s + "\n");
    assert (line + rest)[..|line|] == line;
    DecodeEncode(s + "\n");
  }

  lemma {:induction false} TrimEndBlank(s: string, blank: string)
    requires IsBlank(blank)
    ensures TrimEnd(s + blank) == TrimEnd(s)
  {
    if blank == "" {
      assert s + blank == s;
    } else {
      var shorter := blank[..|blank| - 1];
      assert (s + blank)[..|s + blank| - 1] == s + shorter;
      TrimEndBlank(s, shorter);
    }
  }

  lemma {:induction false} TrimStartBlank(blank: string, s: string)
    requires IsBlank(blank)
    ensures TrimStart(blank + s) == TrimStart(s)
  {
    if blank == "" {
      assert blank + s == s;
    } else {
      assert (blank + s)[1..] == blank[1..] + s;
      TrimStartBlank(blank[1..], s);
    }
  }

  /** Trimming keeps a core that neither starts nor ends with white space. */
  lemma TrimCore(lead: string, core: string, trail: string)
    requires IsBlank(lead) && IsBlank(trail)
    requires core != "" && !IsSpace(core[0]) && !IsSpace(core[|core| - 1])
    ensures Trim(lead + core + trail) == core
  {
    assert lead + core + trail == lead + (core + trail);
    TrimStartBlank(lead, core + trail);
    TrimEndBlank(core, trail);
  }

  lemma TrimBlank(s: string)
    requires IsBlank(s)
    ensures Trim(s) == ""
  {
    assert s + "" == s;
    TrimStartBlank(s, "");
  }

  // ----- Frames -----

  /** A header line: a length as spelled behind the colon, or any other field; lines end in LF or CR LF. */
  datatype Field = Length(spelling: string, crlf: bool) | Other(text: string, crlf: bool)

  /** A header block, its blank line, and the payload. */
  datatype Framed = Framed(fields: seq<Field>, crlf: bool, payload: string)

  /** What the reader parses behind `Content-Length:`, white space trimmed. */
  function Spelled(spelling: string): Option<nat> {
    Decimal.ParseUnsigned(Trim(spelling), USIZE_MAX)
  }

  /** A length is read when it fits 64 bits. */
  lemma LengthLimit(n: nat)
    ensures Spelled(Decimal.Print(n)) == if n <= 18_446_744_073_709_551_615 then Some(n) else None
  {
    hide Trim, Decimal.Print, Decimal.Value;
    var digits := Decimal.Print(n);
    assert Decimal.IsDigit(digits[0]) && Decimal.IsDigit(digits[|digits| - 1]);
    assert "" + digits + "" == digits;
    TrimCore("", digits, "");
    Decimal.ValuePrint(n);
  }

  /** A header line, be its length readable or not. */
  predicate IsField(f: Field) {
    match f
    case Length(spelling, _) => '\n' !in spelling
    case Other(text, _) =>
      text != "" && '\n' !in text && !IsSpace(text[0]) && text[0] != '{' && !(CONTENT_LENGTH <= text)
  }

  predicate ValidField(f: Field) {
    IsField(f) && (f.Length? ==> Spelled(f.spelling).Some?)
  }

  function FieldText(f: Field): string {
    match f case Length(spelling, _) => CONTENT_LENGTH + spelling case Other(text, _) => text
  }

  function Eol(crlf: bool): string {
    if crlf then "\r" else ""
  }

  function FieldLine(f: Field): string {
    FieldText(f) + Eol(f.crlf)
  }

  /** The length announced: the last one spelled. */
  function Announced(fields: seq<Field>, initial: Option<nat>): Option<nat> {
    if fields == [] then initial
    else Announced(fields[1..], if fields[0].Length? then Spelled(fields[0].spelling) else initial)
  }

  predicate ValidFrame(frame: Framed) {
    && frame.fields != []
    && (forall i :: 0 <= i < |frame.fields| ==> ValidField(frame.fields[i]))
    && Announced(frame.fields, None) == Some(|Encode(frame.payload)|)
  }

  function FieldsBytes(fields: seq<Field>): Bytes {
    if fields == [] then [] else Encode(FieldLine(fields[0]) + "\n") + FieldsBytes(fields[1..])
  }

  function BlankLine(crlf: bool): Bytes {
    if crlf then [0x0D, NEWLINE] else [NEWLINE]
  }

  function FrameBytes(frame: Framed): Bytes {
    FieldsBytes(frame.fields) + (BlankLine(frame.crlf) + Encode(frame.payload))
  }

  // ----- Header lines -----

  lemma TrimEolSplits(s: string) returns (tail: string)
    ensures s == TrimEol(s) + tail && IsBlank(tail)
  {
    if s != "" && s[|s| - 1] in {'\r', '\n'} {
      var shorter := TrimEolSplits(s[..|s| - 1]);
      tail := shorter + [s[|s| - 1]];
    } else {
      tail := "";
    }
  }

  lemma TrimEndSplits(s: string) returns (tail: string)
    ensures s == TrimEnd(s) + tail && IsBlank(tail)
    ensures TrimEnd(s) != "" ==> !IsSpace(TrimEnd(s)[|TrimEnd(s)| - 1])
  {
    if s != "" && IsSpace(s[|s| - 1]) {
      var shorter := TrimEndSplits(s[..|s| - 1]);
      tail := shorter + [s[|s| - 1]];
    } else {
      tail := "";
    }
  }

  lemma TrimBehind(s: string, blank: string)
    requires IsBlank(blank)
    ensures Trim(s + blank) == Trim(s)
  {
    if IsBlank(s) {
      TrimBlank(s);
      TrimBlank(s + blank);
    } else {
      TrimStartAppend(s, blank);
      TrimEndBlank(TrimStart(s), blank);
    }
  }

  lemma {:induction false} TrimStartAppend(s: string, more: string)
    requires !IsBlank(s)
    ensures TrimStart(s + more) == TrimStart(s) + more
  {
    if IsSpace(s[0]) {
      assert (s + more)[1..] == s[1..] + more;
      TrimStartAppend(s[1..], more);
    }
  }

  lemma FieldLineStarts(f: Field)
    requires IsField(f)
    ensures '\n' !in FieldLine(f) && FieldText(f) != "" && FieldLine(f)[0] == FieldText(f)[0]
    ensures var line := FieldLine(f) + "\n"; line[0] == FieldText(f)[0] && !IsSpace(line[0]) && line[0] != '{'
  {
    assert '\n' !in CONTENT_LENGTH && CONTENT_LENGTH[0] == 'C';
  }

  lemma NotInBlank(core: string, tail: string, k: nat)
    requires IsBlank(tail) && k < |core + tail| && !IsSpace((core + tail)[k])
    ensures k < |core|
  {}

  /** However much white space is cut off behind it, a valid field means the same. */
  lemma FieldCore(f: Field, core: string, tail: string, length: Option<nat>)
    requires ValidField(f) && FieldLine(f) + "\n" == core + tail && IsBlank(tail)
    ensures core != "" && core[0] == FieldText(f)[0]
    ensures HeaderLine(core, length) == Ok(if f.Length? then Spelled(f.spelling) else length)
  {
    hide Trim, IsBlank, IsSpace, Decimal.ParseUnsigned;
    FieldLineStarts(f);
    NotInBlank(core, tail, 0);
    assert (core + tail)[0] == core[0];
    if f.Length? {
      LengthCore(f, core, tail);
    } else {
      PrefixIsText(f, core, tail);
    }
  }

  lemma LengthCore(f: Field, core: string, tail: string)
    requires f.Length? && FieldLine(f) + "\n" == core + tail && IsBlank(tail)
    ensures CONTENT_LENGTH <= core && Trim(core[|CONTENT_LENGTH|..]) == Trim(f.spelling)
  {
    hide Trim;
    var line, n := FieldLine(f) + "\n", |CONTENT_LENGTH|;
    assert !IsSpace(CONTENT_LENGTH[n - 1]) && line[n - 1] == CONTENT_LENGTH[n - 1];
    NotInBlank(core, tail, n - 1);
    assert line[..n] == CONTENT_LENGTH;
    var spelled := core[n..];
    assert line[n..] == spelled + tail && line[n..] == f.spelling + (Eol(f.crlf) + "\n");
    TrimBehind(spelled, tail);
    TrimBehind(f.spelling, Eol(f.crlf) + "\n");
  }

  lemma PrefixIsText(f: Field, core: string, tail: string)
    requires FieldLine(f) + "\n" == core + tail && f.Other?
    ensures CONTENT_LENGTH <= core ==> CONTENT_LENGTH <= f.text
  {
    if CONTENT_LENGTH <= core {
      var line, n := FieldLine(f) + "\n", |CONTENT_LENGTH|;
      assert line[..n] == CONTENT_LENGTH;
      assert line[n - 1] == CONTENT_LENGTH[n - 1];
      assert line == f.text + (Eol(f.crlf) + "\n");
      NotInBlank(f.text, Eol(f.crlf) + "\n", n - 1);
      assert f.text[..n] == line[..n];
    }
  }

  /** A field is read as one header line. */
  lemma FieldIsRead(f: Field, rest: Bytes, length: Option<nat>)
    requires ValidField(f)
    ensures ReadHeaders(Encode(FieldLine(f) + "\n") + rest, length)
            == ReadHeaders(rest, if f.Length? then Spelled(f.spelling) else length)
  {
    hide Encode, LineLength, HeaderLine, TrimEol, FieldLine, Spelled;
    FieldLineStarts(f);
    FirstLineIs(FieldLine(f), rest);
    var tail := TrimEolSplits(FieldLine(f) + "\n");
    FieldCore(f, TrimEol(FieldLine(f) + "\n"), tail, length);
  }

  lemma FieldTrimmed(f: Field)
    requires ValidField(f)
    ensures var trimmed := Trim(FieldLine(f) + "\n");
            && trimmed != "" && !("{" <= trimmed)
            && HeaderLine(trimmed, None) == Ok(if f.Length? then Spelled(f.spelling) else None)
  {
    hide HeaderLine, FieldLine, Spelled;
    var line := FieldLine(f) + "\n";
    FieldLineStarts(f);
    assert TrimStart(line) == line;
    var tail := TrimEndSplits(line);
    FieldCore(f, TrimEnd(line), tail, None);
  }

  /** Behind a first line that is a field, the two readers do the same. */
  lemma McpIsDap(f: Field, rest: Bytes)
    requires ValidField(f)
    ensures ReadMcp(Encode(FieldLine(f) + "\n") + rest) == ReadDap(Encode(FieldLine(f) + "\n") + rest)
  {
    hide Encode, LineLength, HeaderLine, Trim, ReadHeaders, FieldLine, Spelled;
    FieldLineStarts(f);
    FirstLineIs(FieldLine(f), rest);
    FieldTrimmed(f);
    FieldIsRead(f, rest, None);
    assert SkipBlankLines(Encode(FieldLine(f) + "\n") + rest) == Line(FieldLine(f) + "\n", rest);
  }

  lemma BlankLineCompletes(crlf: bool, rest: Bytes, length: Option<nat>)
    ensures ReadHeaders(BlankLine(crlf) + rest, length) == Complete(length, rest)
  {
    hide Encode, LineLength;
    EncodeAppend("\r", "\n");
    EncodeNewline();
    CarriageReturn();
    assert "" + "\n" == "\n";
    FirstLineIs(Eol(crlf), rest);
    assert Encode(Eol(crlf) + "\n") == BlankLine(crlf);
    var tail := TrimEolSplits(Eol(crlf) + "\n");
    EolIsEmpty(crlf);
  }

  lemma CarriageReturn()
    ensures Encode("\r") == [0x0D] && TrimEol("\r") == ""
  {
    assert "\r"[..0] == "";
  }

  lemma EolIsEmpty(crlf: bool)
    ensures TrimEol(Eol(crlf) + "\n") == ""
  {
    assert "\r\n"[..1] == "\r" && "\r"[..0] == "" && "\n"[..0] == "";
    assert "\r" + "\n" == "\r\n" && "" + "\n" == "\n";
  }

  /** A header block is read to its blank line, the last length winning. */
  lemma {:induction false} BlockIsRead(fields: seq<Field>, rest: Bytes, length: Option<nat>)
    requires forall i :: 0 <= i < |fields| ==> ValidField(fields[i])
    ensures ReadHeaders(FieldsBytes(fields) + rest, length) == ReadHeaders(rest, Announced(fields, length))
  {
    hide ReadHeaders, Encode, FieldLine, ValidField;
    if fields == [] {
      assert FieldsBytes(fields) + rest == rest;
    } else {
      var line, more := Encode(FieldLine(fields[0]) + "\n"), FieldsBytes(fields[1..]);
      assert FieldsBytes(fields) + rest == line + (more + rest);
      FieldIsRead(fields[0], more + rest, length);
      BlockIsRead(fields[1..], rest, if fields[0].Length? then Spelled(fields[0].spelling) else length);
    }
  }

  // ----- Any header block -----

  /** A length that is no number fails the block. */
  lemma BadFieldIsRead(f: Field, rest: Bytes, length: Option<nat>)
    requires IsField(f) && !ValidField(f)
    ensures ReadHeaders(Encode(FieldLine(f) + "\n") + rest, length) == Malformed(BadLength)
    ensures ReadMcp(Encode(FieldLine(f) + "\n") + rest) == Failure(BadLength)
  {
    hide Encode, LineLength, Trim, TrimEol, FieldLine, Decimal.ParseUnsigned;
    var line := FieldLine(f) + "\n";
    FieldLineStarts(f);
    FirstLineIs(FieldLine(f), rest);
    var tail := TrimEolSplits(line);
    BadCore(f, TrimEol(line), tail, length);
    BadTrimmed(f);
    assert SkipBlankLines(Encode(line) + rest) == Line(line, rest);
  }

  lemma BadCore(f: Field, core: string, tail: string, length: Option<nat>)
    requires IsField(f) && !ValidField(f) && FieldLine(f) + "\n" == core + tail && IsBlank(tail)
    ensures core != "" && core[0] == CONTENT_LENGTH[0] && HeaderLine(core, length) == Err(BadLength)
  {
    hide Trim, IsBlank, IsSpace, Decimal.ParseUnsigned;
    LengthCore(f, core, tail);
  }

  lemma BadTrimmed(f: Field)
    requires IsField(f) && !ValidField(f)
    ensures var trimmed := Trim(FieldLine(f) + "\n");
            trimmed != "" && !("{" <= trimmed) && HeaderLine(trimmed, None) == Err(BadLength)
  {
    hide HeaderLine, FieldLine, Spelled;
    var line := FieldLine(f) + "\n";
    FieldLineStarts(f);
    assert TrimStart(line) == line;
    var tail := TrimEndSplits(line);
    BadCore(f, TrimEnd(line), tail, None);
    assert CONTENT_LENGTH[0] == 'C';
  }

  /** Everything before the first length that is no number is read as it stands. */
  lemma {:induction false} BadBlock(fields: seq<Field>, k: nat, rest: Bytes, length: Option<nat>)
    requires k < |fields| && IsField(fields[k]) && !ValidField(fields[k])
    requires forall i :: 0 <= i < k ==> ValidField(fields[i])
    ensures ReadHeaders(FieldsBytes(fields) + rest, length) == Malformed(BadLength)
    decreases k
  {
    hide ReadHeaders, Encode, FieldLine, ValidField, IsField, Spelled;
    var line, more := Encode(FieldLine(fields[0]) + "\n"), FieldsBytes(fields[1..]);
    assert FieldsBytes(fields) + rest == line + (more + rest);
    if k == 0 {
      BadFieldIsRead(fields[0], more + rest, length);
    } else {
      FieldIsRead(fields[0], more + rest, length);
      BadBlock(fields[1..], k - 1, rest, if fields[0].Length? then Spelled(fields[0].spelling) else length);
    }
  }

  ghost predicate AllFields(fields: seq<Field>) {
    forall i :: 0 <= i < |fields| ==> IsField(fields[i])
  }

  ghost predicate Readable(fields: seq<Field>) {
    forall i :: 0 <= i < |fields| ==> ValidField(fields[i])
  }

  lemma {:induction false} FirstBad(fields: seq<Field>) returns (k: nat)
    requires AllFields(fields) && !Readable(fields)
    ensures k < |fields| && !ValidField(fields[k]) && forall i :: 0 <= i < k ==> ValidField(fields[i])
  {
    hide IsField, ValidField;
    if !ValidField(fields[0]) {
      k := 0;
    } else {
      assert forall i :: 0 < i < |fields| ==> fields[i] == fields[1..][i - 1];
      k := FirstBad(fields[1..]);
      k := k + 1;
    }
  }

  /**
   * What either reader makes of a header block and the bytes behind it: a length that is no number, no
   * length at all, too few bytes and bytes that are no text are refused, in that order; else it is a message.
   */
  lemma BlockExact(protocol: Protocol, fields: seq<Field>, crlf: bool, body: Bytes)
    requires AllFields(fields) && fields != []
    ensures Read(protocol, FieldsBytes(fields) + (BlankLine(crlf) + body)) ==
            if !Readable(fields) then Failure(BadLength)
            else match Announced(fields, None)
              case None => Failure(MissingLength)
              case Some(n) =>
                if |body| < n then Failure(ShortPayload)
                else if !ValidUtf8(body[..n]) then Failure(BadText)
                else Message(Decode(body[..n]).value, body[n..])
  {
    hide ReadHeaders, ReadMcp, Encode, Decode, FieldLine, ValidField, IsField, BlankLine, Announced;
    var rest := BlankLine(crlf) + body;
    var line, more := Encode(FieldLine(fields[0]) + "\n"), FieldsBytes(fields[1..]);
    assert FieldsBytes(fields) + rest == line + (more + rest);
    if Readable(fields) {
      McpIsDap(fields[0], more + rest);
      BlockIsRead(fields, rest, None);
      BlankLineCompletes(crlf, body, Announced(fields, None));
    } else {
      var k := FirstBad(fields);
      BadBlock(fields, k, rest, None);
      if k == 0 {
        BadFieldIsRead(fields[0], more + rest, None);
      } else {
        McpIsDap(fields[0], more + rest);
      }
    }
  }

  /** What was framed is read, and reading stops exactly behind it, under either protocol. */
  lemma FrameReadsBack(protocol: Protocol, frame: Framed, rest: Bytes)
    requires ValidFrame(frame)
    ensures Read(protocol, FrameBytes(frame) + rest) == Message(frame.payload, rest)
  {
    hide Encode, ReadHeaders, ReadMcp, FieldsBytes, ValidField, BlankLine, Announced;
    var body := Encode(frame.payload);
    FrameBehind(protocol, frame, BlankLine(frame.crlf) + body + rest);
    assert FrameBytes(frame) + rest == FieldsBytes(frame.fields) + (BlankLine(frame.crlf) + body + rest);
    assert BlankLine(frame.crlf) + body + rest == BlankLine(frame.crlf) + (body + rest);
    BlankLineCompletes(frame.crlf, body + rest, Some(|body|));
    DecodeEncode(frame.payload);
    assert (body + rest)[..|body|] == body && (body + rest)[|body|..] == rest;
  }

  /** Behind the fields of a frame, either reader goes on with the length announced. */
  lemma FrameBehind(protocol: Protocol, frame: Framed, rest: Bytes)
    requires ValidFrame(frame)
    ensures Read(protocol, FieldsBytes(frame.fields) + rest)
            == ReadPayload(ReadHeaders(rest, Some(|Encode(frame.payload)|)))
  {
    hide Encode, ReadHeaders, ReadMcp, FieldLine, ValidField, ReadPayload;
    var line, more := Encode(FieldLine(frame.fields[0]) + "\n"), FieldsBytes(frame.fields[1..]);
    assert FieldsBytes(frame.fields) + rest == line + (more + rest);
    McpIsDap(frame.fields[0], more + rest);
    BlockIsRead(frame.fields, rest, None);
  }

  // ----- What the program itself writes -----

  function Written(payload: string): Framed {
    Framed([Length(" " + Decimal.Print(|Encode(payload)|), true)], true, payload)
  }

  lemma SpelledPrint(n: nat)
    requires n <= USIZE_MAX
    ensures Spelled(" " + Decimal.Print(n)) == Some(n) && '\n' !in " " + Decimal.Print(n)
  {
    var digits := Decimal.Print(n);
    assert Decimal.IsDigit(digits[0]) && Decimal.IsDigit(digits[|digits| - 1]);
    assert " " + digits + "" == " " + digits;
    TrimCore(" ", digits, "");
    Decimal.ParsePrint(n, USIZE_MAX);
    assert '\n' !in digits;
  }

  lemma WrittenHeader(n: nat)
    ensures Header(n) == CONTENT_LENGTH + (" " + Decimal.Print(n)) + "\r" + "\n" + ("\r" + "\n")
  {
    var digits := Decimal.Print(n);
    hide Decimal.Print;
    assert CONTENT_LENGTH + (" " + digits) == "Content-Length: " + digits;
    assert "\r" + "\n" + ("\r" + "\n") == "\r\n\r\n";
    assert "Content-Length: " + digits + "\r" + "\n" + ("\r" + "\n") == "Content-Length: " + digits + "\r\n\r\n";
  }

  lemma TerminatorBytes()
    ensures Encode("\r" + "\n") == BlankLine(true)
  {
    EncodeAppend("\r", "\n");
    EncodeNewline();
    CarriageReturn();
  }

  /** A written frame is a frame with one header field. */
  lemma WrittenIsFrame(payload: string)
    requires |Encode(payload)| <= USIZE_MAX
    ensures ValidFrame(Written(payload)) && FrameBytes(Written(payload)) == Frame(payload)
  {
    hide Encode, Spelled, Decimal.Print, Header;
    var n := |Encode(payload)|;
    var frame := Written(payload);
    var f := frame.fields[0];
    SpelledPrint(n);
    assert frame.fields == [f] && frame.fields[1..] == [];
    assert ValidField(f) && Announced([], Spelled(f.spelling)) == Some(n);
    assert Announced(frame.fields, None) == Some(n);
    WrittenBytes(payload, FieldLine(f) + "\n");
    assert FieldsBytes(frame.fields) == Encode(FieldLine(f) + "\n") + FieldsBytes([]);
  }

  lemma WrittenBytes(payload: string, first: string)
    requires first == CONTENT_LENGTH + (" " + Decimal.Print(|Encode(payload)|)) + "\r" + "\n"
    ensures Frame(payload) == Encode(first) + [] + (BlankLine(true) + Encode(payload))
  {
    hide Encode, Decimal.Print, Header;
    WrittenHeader(|Encode(payload)|);
    EncodeAppend(first, "\r" + "\n");
    TerminatorBytes();
  }

  // ----- Sessions read back -----

  /** What a client may send over MCP. */
  datatype Item =
    | Headed(frame: Framed)
    | OneLine(lead: string, payload: string, trail: string)
    | Blank(space: string)

  predicate ValidItem(item: Item) {
    match item
    case Headed(frame) => ValidFrame(frame)
    case OneLine(lead, payload, trail) =>
      && IsBlank(lead + trail) && '\n' !in lead + payload + trail
      && payload != "" && payload[0] == '{' && !IsSpace(payload[|payload| - 1])
    case Blank(space) => IsBlank(space) && '\n' !in space
  }

  predicate ValidItems(items: seq<Item>) {
    forall i :: 0 <= i < |items| ==> ValidItem(items[i])
  }

  function LineOf(item: Item): string
    requires item.OneLine?
  {
    item.lead + item.payload + item.trail
  }

  function ItemBytes(item: Item): Bytes {
    match item
    case Headed(frame) => FrameBytes(frame)
    case OneLine(_, _, _) => Encode(LineOf(item) + "\n")
    case Blank(space) => Encode(space + "\n")
  }

  function PayloadOf(item: Item): seq<string> {
    match item
    case Headed(frame) => [frame.payload]
    case OneLine(_, payload, _) => [payload]
    case Blank(_) => []
  }

  function StreamOf(items: seq<Item>): Bytes {
    if items == [] then [] else ItemBytes(items[0]) + StreamOf(items[1..])
  }

  function Payloads(items: seq<Item>): seq<string> {
    if items == [] then [] else PayloadOf(items[0]) + Payloads(items[1..])
  }

  lemma LineReadsBack(item: Item, rest: Bytes)
    requires item.OneLine? && ValidItem(item)
    ensures ReadMcp(ItemBytes(item) + rest) == Message(item.payload, rest)
  {
    hide Encode, LineLength;
    var lead, payload, trail := item.lead, item.payload, item.trail;
    FirstLineIs(LineOf(item), rest);
    assert forall i :: 0 <= i < |lead| ==> lead[i] == (lead + trail)[i];
    assert forall i :: 0 <= i < |trail| ==> trail[i] == (lead + trail)[|lead| + i];
    assert LineOf(item) + "\n" == lead + payload + (trail + "\n");
    TrimCore(lead, payload, trail + "\n");
  }

  lemma BlankIsSkipped(item: Item, rest: Bytes)
    requires item.Blank? && ValidItem(item)
    ensures ReadMcp(ItemBytes(item) + rest) == ReadMcp(rest)
  {
    hide Encode, LineLength;
    FirstLineIs(item.space, rest);
    TrimBlank(item.space + "\n");
  }

  /** Reading a whole item takes exactly its payload off the stream. */
  lemma ItemReadsBack(item: Item, rest: Bytes)
    requires ValidItem(item)
    ensures ReadAll(Mcp, ItemBytes(item) + rest).messages == PayloadOf(item) + ReadAll(Mcp, rest).messages
    ensures ReadAll(Mcp, ItemBytes(item) + rest).failed == ReadAll(Mcp, rest).failed
  {
    hide ReadMcp, Encode, FrameBytes, ReadAll, ValidFrame, FieldsBytes;
    var b := ItemBytes(item) + rest;
    ReadAllStep(Mcp, b);
    match item
    case Headed(frame) => FrameReadsBack(Mcp, frame, rest);
    case OneLine(_, _, _) => LineReadsBack(item, rest);
    case Blank(_) =>
      BlankIsSkipped(item, rest);
      ReadAllStep(Mcp, rest);
  }

  lemma ReadAllStep(protocol: Protocol, b: Bytes)
    ensures match Read(protocol, b)
            case Message(payload, rest) =>
              ReadAll(protocol, b) ==
                  Session([payload] + ReadAll(protocol, rest).messages, ReadAll(protocol, rest).failed)
            case End => ReadAll(protocol, b) == Session([], false)
            case Failure(_) => ReadAll(protocol, b) == Session([], true)
  {
    hide Read;
  }

  lemma EndOfStream(protocol: Protocol)
    ensures ReadAll(protocol, []) == Session([], false)
  {}

  /**
   * Any interleaving of frames, one-line objects and blank lines is read as exactly its payloads,
   * in order, and then the end of the stream.
   */
  lemma {:induction false} McpSessionReadsBack(items: seq<Item>)
    requires ValidItems(items)
    ensures ReadAll(Mcp, StreamOf(items)) == Session(Payloads(items), false)
  {
    hide ReadAll, ItemBytes, ValidItem;
    if items == [] {
      EndOfStream(Mcp);
    } else {
      McpSessionReadsBack(items[1..]);
      ItemReadsBack(items[0], StreamOf(items[1..]));
    }
  }

  function Frames(payloads: seq<string>): Bytes {
    if payloads == [] then [] else Frame(payloads[0]) + Frames(payloads[1..])
  }

  predicate Sendable(payloads: seq<string>) {
    forall i :: 0 <= i < |payloads| ==> |Encode(payloads[i])| <= USIZE_MAX
  }

  /** Reading back one written frame. */
  lemma WrittenReadsBack(payload: string, rest: Bytes)
    requires |Encode(payload)| <= USIZE_MAX
    ensures ReadAll(Dap, Frame(payload) + rest)
            == Session([payload] + ReadAll(Dap, rest).messages, ReadAll(Dap, rest).failed)
  {
    hide Read, Encode, Frame, ReadAll, FrameBytes, ValidFrame;
    WrittenIsFrame(payload);
    FrameReadsBack(Dap, Written(payload), rest);
    ReadAllStep(Dap, Frame(payload) + rest);
  }

  /** Reading what was written over DAP gives back the payloads, whatever text they hold. */
  lemma {:induction false} DapSessionReadsBack(payloads: seq<string>)
    requires Sendable(payloads)
    ensures ReadAll(Dap, Frames(payloads)) == Session(payloads, false)
  {
    hide ReadAll, Frame, Encode;
    if payloads == [] {
      EndOfStream(Dap);
    } else {
      DapSessionReadsBack(payloads[1..]);
      WrittenReadsBack(payloads[0], Frames(payloads[1..]));
      assert payloads == [payloads[0]] + payloads[1..];
    }
  }

  function Lines(payloads: seq<string>): Bytes {
    if payloads == [] then [] else Encode(payloads[0] + "\n") + Lines(payloads[1..])
  }

  /** The text of an object on one line, with no space behind it. */
  predicate IsObjectLine(payload: string) {
    '\n' !in payload && payload != "" && payload[0] == '{' && !IsSpace(payload[|payload| - 1])
  }

  /** Reading what was written over MCP gives back the payloads, whatever objects they are. */
  lemma {:induction false} McpLinesReadBack(payloads: seq<string>)
    requires forall i :: 0 <= i < |payloads| ==> IsObjectLine(payloads[i])
    ensures ReadAll(Mcp, Lines(payloads)) == Session(payloads, false)
  {
    hide ReadAll, Encode, IsObjectLine;
    if payloads == [] {
      EndOfStream(Mcp);
    } else {
      McpLinesReadBack(payloads[1..]);
      LineIsItem(payloads[0]);
      ItemReadsBack(OneLine("", payloads[0], ""), Lines(payloads[1..]));
      assert payloads == [payloads[0]] + payloads[1..];
    }
  }

  lemma LineIsItem(payload: string)
    requires IsObjectLine(payload)
    ensures var item := OneLine("", payload, "");
            ValidItem(item) && ItemBytes(item) == Encode(payload + "\n") && PayloadOf(item) == [payload]
  {
    hide Encode;
    assert "" + payload + "" == payload && "" + "" == "";
  }

  // ----- A frame cut short -----

  lemma {:induction false} NoNewlineIsOneLine(b: Bytes)
    requires NEWLINE !in b
    ensures LineLength(b) == |b|
  {
    if b != [] {
      NoNewlineIsOneLine(b[1..]);
    }
  }

  /** A line cut before its end has no newline, and decodes, if at all, to a part of its text. */
  lemma CutLine(line: string, j: nat)
    requires '\n' !in line && j < |Encode(line + "\n")|
    ensures var b := Encode(line + "\n")[..j];
            && LineLength(b) == |b|
            && j <= |Encode(line)| && b == Encode(line)[..j]
            && (DecodeText(b).Ok? ==>
                 var t := DecodeText(b).value;
                 t <= line && t == line[..|t|] && Encode(t) == b && (t == "" <==> b == []))
  {
    hide Encode, Decode, LineLength;
    EncodeAppend(line, "\n");
    EncodeNewline();
    NewlineInEncoding(line);
    var b := Encode(line + "\n")[..j];
    assert b == Encode(line)[..j];
    assert forall i :: 0 <= i < |b| ==> b[i] == Encode(line)[i];
    NoNewlineIsOneLine(b);
    CutDecodes(line, j);
    NothingEncoded();
    if DecodeText(b).Ok? {
      EncodeDecode(b);
    }
  }

  lemma NothingEncoded()
    ensures forall t :: Encode(t) == [] <==> t == ""
  {}

  /** A header line cut short never completes a header block. */
  lemma CutField(f: Field, j: nat, length: Option<nat>)
    requires ValidField(f) && j < |Encode(FieldLine(f) + "\n")|
    ensures !ReadHeaders(Encode(FieldLine(f) + "\n")[..j], length).Complete?
    ensures !ReadMcp(Encode(FieldLine(f) + "\n")[..j]).Message?
  {
    hide Encode, Decode, LineLength, HeaderLine, FieldLine, IsField, Spelled;
    var b := Encode(FieldLine(f) + "\n")[..j];
    FieldLineStarts(f);
    CutLine(FieldLine(f), j);
    assert b[|b|..] == [] && b[..|b|] == b;
    if b != [] && DecodeText(b).Ok? {
      var t := DecodeText(b).value;
      assert t[0] == FieldLine(f)[0];
      StartsKept(t);
    }
  }

  lemma StartsKept(t: string)
    requires t != "" && !IsSpace(t[0])
    ensures TrimEol(t) != "" && TrimEol(t)[0] == t[0]
    ensures Trim(t) != "" && Trim(t)[0] == t[0]
  {
    var eol := TrimEolSplits(t);
    NotInBlank(TrimEol(t), eol, 0);
    assert TrimStart(t) == t;
    var end := TrimEndSplits(t);
    NotInBlank(TrimEnd(t), end, 0);
  }

  /** Header fields cut short complete nothing, whatever was read before. */
  lemma {:induction false} CutFields(fields: seq<Field>, j: nat, length: Option<nat>)
    requires (forall i :: 0 <= i < |fields| ==> ValidField(fields[i])) && j < |FieldsBytes(fields)|
    ensures !ReadHeaders(FieldsBytes(fields)[..j], length).Complete?
  {
    hide ReadHeaders, Encode, FieldLine, ValidField;
    var line, more := Encode(FieldLine(fields[0]) + "\n"), FieldsBytes(fields[1..]);
    if j < |line| {
      assert FieldsBytes(fields)[..j] == line[..j];
      CutField(fields[0], j, length);
    } else {
      assert FieldsBytes(fields)[..j] == line + more[..j - |line|];
      FieldIsRead(fields[0], more[..j - |line|], length);
      if j - |line| < |more| {
        CutFields(fields[1..], j - |line|, if fields[0].Length? then Spelled(fields[0].spelling) else length);
      }
    }
  }

  lemma CutFieldsUnread(protocol: Protocol, frame: Framed, j: nat)
    requires ValidFrame(frame) && j < |FieldsBytes(frame.fields)|
    ensures !Read(protocol, FieldsBytes(frame.fields)[..j]).Message?
  {
    hide ReadHeaders, ReadMcp, Encode, FieldLine, ValidField;
    CutFields(frame.fields, j, None);
    var line, more := Encode(FieldLine(frame.fields[0]) + "\n"), FieldsBytes(frame.fields[1..]);
    if j < |line| {
      assert FieldsBytes(frame.fields)[..j] == line[..j];
      CutField(frame.fields[0], j, None);
    } else {
      assert FieldsBytes(frame.fields)[..j] == line + more[..j - |line|];
      McpIsDap(frame.fields[0], more[..j - |line|]);
    }
  }

  lemma CutBlankLine(crlf: bool, j: nat, n: nat)
    requires j < |BlankLine(crlf)|
    ensures var outcome := ReadPayload(ReadHeaders(BlankLine(crlf)[..j], Some(n)));
            if crlf && j == 1 && n == 0 then outcome == Message("", []) else !outcome.Message?
  {
    hide Encode, Decode;
    var b := BlankLine(crlf)[..j];
    if j == 1 {
      CarriageReturn();
      DecodeEncode("\r");
      assert b == [0x0D] && b[1..] == [] && b[..1] == b;
      assert LineLength(b) == 1;
      assert ReadHeaders(b, Some(n)) == Complete(Some(n), []);
      EmptyEncoding("");
      DecodeEncode("");
    } else {
      assert b == [];
    }
  }

  lemma EmptyEncoding(payload: string)
    ensures Encode(payload) == [] <==> payload == ""
  {
    NothingEncoded();
  }

  /**
   * A frame cut anywhere before its end is read under neither protocol, with one exception: an empty
   * payload does not need the LF of a blank line that ends in CR LF.
   */
  lemma CutFrame(protocol: Protocol, frame: Framed, k: nat)
    requires ValidFrame(frame) && k < |FrameBytes(frame)|
    ensures Read(protocol, FrameBytes(frame)[..k]).Message? <==>
            frame.payload == "" && frame.crlf && k + 1 == |FrameBytes(frame)|
    ensures Read(protocol, FrameBytes(frame)[..k]).Message? ==>
            Read(protocol, FrameBytes(frame)[..k]) == Message("", [])
  {
    hide Read, ReadHeaders, Encode, FieldsBytes, ValidField, BlankLine, ReadPayload;
    var head, blank, body := FieldsBytes(frame.fields), BlankLine(frame.crlf), Encode(frame.payload);
    EmptyEncoding(frame.payload);
    BlankLineLength(frame.crlf);
    if k < |head| {
      assert FrameBytes(frame)[..k] == head[..k];
      CutFieldsUnread(protocol, frame, k);
    } else {
      var rest := (blank + body)[..k - |head|];
      assert FrameBytes(frame)[..k] == head + rest;
      FrameBehind(protocol, frame, rest);
      if |rest| < |blank| {
        assert rest == blank[..|rest|];
        CutBlankLine(frame.crlf, |rest|, |body|);
      } else {
        assert rest == blank + body[..|rest| - |blank|];
        BlankLineCompletes(frame.crlf, body[..|rest| - |blank|], Some(|body|));
        ShortBody(|body|, body[..|rest| - |blank|]);
      }
    }
  }

  /** An empty payload is read although the LF that ends its header is missing. */
  lemma CutFrameExample(protocol: Protocol)
    ensures Frame("") == Encode("Content-Length: 0\r\n\r" + "\n")
    ensures Read(protocol, Encode("Content-Length: 0\r\n\r")) == Message("", [])
  {
    hide Read, Encode, FrameBytes, ValidFrame;
    var cut := "Content-Length: 0\r\n\r";
    EmptyEncoding("");
    assert Header(0) == cut + "\n";
    assert Frame("") == Encode(cut + "\n") + [];
    EncodeAppend(cut, "\n");
    EncodeNewline();
    WrittenIsFrame("");
    CutFrame(protocol, Written(""), |Frame("")| - 1);
    assert Frame("")[..|Frame("")| - 1] == Encode(cut);
  }

  lemma BlankLineLength(crlf: bool)
    ensures |BlankLine(crlf)| == if crlf then 2 else 1
  {}

  lemma ShortBody(n: nat, rest: Bytes)
    requires |rest| < n
    ensures !ReadPayload(Complete(Some(n), rest)).Message?
  {}

  // ----- A session cut short -----

  /** What the first `k` bytes of written frames deliver beyond the frames wholly among them. */
  function LastFrame(payload: string, k: nat): seq<string> {
    if payload == "" && k + 1 == |Frame(payload)| then [""] else []
  }

  /** What is delivered beyond the first `n` frames, when the cut at byte `k` falls behind them. */
  function CutTail(payloads: seq<string>, n: nat, k: nat): seq<string>
    requires n <= |payloads| && |Frames(payloads[..n])| <= k
  {
    if n < |payloads| then LastFrame(payloads[n], k - |Frames(payloads[..n])|) else []
  }

  /** The cut at byte `k` falls behind the first `n` frames and in the next, or at the end. */
  predicate FallsBehind(payloads: seq<string>, n: nat, k: nat) {
    n <= |payloads| && |Frames(payloads[..n])| <= k && (n < |payloads| ==> k < |Frames(payloads[..n + 1])|)
  }

  /**
   * A DAP stream cut after any byte delivers exactly the frames wholly before the cut, and one empty
   * payload more when only the last byte of its frame is missing: never a shortened or altered message.
   */
  lemma {:induction false} CutSession(payloads: seq<string>, k: nat) returns (n: nat)
    requires Sendable(payloads) && k <= |Frames(payloads)|
    ensures FallsBehind(payloads, n, k)
    ensures ReadAll(Dap, Frames(payloads)[..k]).messages == payloads[..n] + CutTail(payloads, n, k)
    ensures ReadAll(Dap, Frames(payloads)[..k]).messages <= payloads
  {
    hide Frame, ReadAll, LastFrame, Sendable;
    if payloads == [] {
      EndOfStream(Dap);
      n := 0;
    } else if k < |Frame(payloads[0])| {
      CutFirstFrame(payloads, k);
      n := 0;
    } else {
      hide CutTail, FallsBehind;
      CutLaterFrame(payloads, k);
      var k' := k - |Frame(payloads[0])|;
      var m := CutSession(payloads[1..], k');
      Within(payloads[1..], m, k');
      OneFrameOn(payloads, m, k);
      n := m + 1;
      PrefixOneMore(payloads, m, ReadAll(Dap, Frames(payloads[1..])[..k']).messages, CutTail(payloads, n, k));
    }
  }

  lemma Within(payloads: seq<string>, n: nat, k: nat)
    requires FallsBehind(payloads, n, k)
    ensures n <= |payloads| && |Frames(payloads[..n])| <= k
  {}

  /** Counting the first frame changes nothing behind it. */
  lemma OneFrameOn(payloads: seq<string>, m: nat, k: nat)
    requires payloads != [] && |Frame(payloads[0])| <= k && FallsBehind(payloads[1..], m, k - |Frame(payloads[0])|)
    ensures FallsBehind(payloads, m + 1, k) && |Frames(payloads[..m + 1])| <= k
    ensures CutTail(payloads, m + 1, k) == CutTail(payloads[1..], m, k - |Frame(payloads[0])|)
  {
    hide Frame, Frames, LastFrame;
    FramesPrefix(payloads, m);
    if m + 1 < |payloads| {
      FramesPrefix(payloads, m + 1);
      assert payloads[1..][m] == payloads[m + 1];
    }
  }

  /** The cut falls in the first frame. */
  lemma CutFirstFrame(payloads: seq<string>, k: nat)
    requires Sendable(payloads) && payloads != [] && k < |Frame(payloads[0])|
    ensures k < |Frames(payloads[..1])| && k <= |Frames(payloads)|
    ensures ReadAll(Dap, Frames(payloads)[..k]).messages == LastFrame(payloads[0], k) <= payloads
  {
    hide Frame, ReadAll, Encode, LastFrame;
    assert Frames(payloads)[..k] == Frame(payloads[0])[..k];
    FramesPrefix(payloads, 0);
    CutWritten(payloads[0], k);
  }

  /** The cut falls behind the first frame. */
  lemma CutLaterFrame(payloads: seq<string>, k: nat)
    requires Sendable(payloads) && payloads != [] && |Frame(payloads[0])| <= k <= |Frames(payloads)|
    ensures var k' := k - |Frame(payloads[0])|;
            && Sendable(payloads[1..]) && k' <= |Frames(payloads[1..])|
            && ReadAll(Dap, Frames(payloads)[..k]).messages
               == [payloads[0]] + ReadAll(Dap, Frames(payloads[1..])[..k']).messages
  {
    hide Frame, ReadAll, Encode;
    var first, rest := Frame(payloads[0]), Frames(payloads[1..]);
    assert Frames(payloads)[..k] == first + rest[..k - |first|];
    WrittenReadsBack(payloads[0], rest[..k - |first|]);
    hide Sendable;
    SendableRest(payloads);
  }

  lemma SendableRest(payloads: seq<string>)
    requires Sendable(payloads) && payloads != []
    ensures Sendable(payloads[1..])
  {}

  lemma PrefixOneMore(payloads: seq<string>, m: nat, later: seq<string>, last: seq<string>)
    requires m < |payloads| && later == payloads[1..][..m] + last && later <= payloads[1..]
    ensures [payloads[0]] + later == payloads[..m + 1] + last
    ensures [payloads[0]] + later <= payloads
  {
    assert payloads == [payloads[0]] + payloads[1..];
    assert payloads[..m + 1] == [payloads[0]] + payloads[1..][..m];
  }

  lemma FramesPrefix(payloads: seq<string>, m: nat)
    requires m < |payloads|
    ensures Frames(payloads[..m + 1]) == Frame(payloads[0]) + Frames(payloads[1..][..m])
  {
    hide Frame;
    assert payloads[..m + 1][1..] == payloads[1..][..m];
  }

  lemma CutWritten(payload: string, k: nat)
    requires |Encode(payload)| <= USIZE_MAX && k < |Frame(payload)|
    ensures ReadAll(Dap, Frame(payload)[..k]).messages == LastFrame(payload, k)
    ensures LastFrame(payload, k) <= [payload]
  {
    hide Read, Frame, ReadAll, Encode, FrameBytes, ValidFrame;
    WrittenIsFrame(payload);
    CutFrame(Dap, Written(payload), k);
    ReadAllStep(Dap, Frame(payload)[..k]);
    EndOfStream(Dap);
  }

  /** The cut at byte `j` of a one-line object falls behind its first `c` characters. */
  ghost predicate CutBehind(item: Item, j: nat, c: nat)
    requires item.OneLine?
  {
    c <= |LineOf(item)| && j == |Encode(LineOf(item)[..c])|
  }

  /** What is left of a one-line object once `c` characters have arrived. */
  function Arrived(item: Item, c: nat): string
    requires item.OneLine?
  {
    if c < |item.lead| then ""
    else if c < |item.lead| + |item.payload| then TrimEnd(item.payload[..c - |item.lead|])
    else item.payload
  }

  /**
   * A one-line object cut before its newline is read as a message exactly when the cut is behind a whole
   * character and its opening brace; the message is what has arrived, and that is the object itself
   * exactly when its last character has.
   */
  lemma CutOneLine(item: Item, j: nat)
    requires item.OneLine? && ValidItem(item) && j < |ItemBytes(item)|
    ensures ReadMcp(ItemBytes(item)[..j]).Message? <==> exists c: nat :: CutBehind(item, j, c) && |item.lead| < c
    ensures forall c: nat :: CutBehind(item, j, c) && |item.lead| < c ==>
              && ReadMcp(ItemBytes(item)[..j]) == Message(Arrived(item, c), [])
              && Arrived(item, c) <= item.payload
              && (Arrived(item, c) == item.payload <==> |item.lead| + |item.payload| <= c)
  {
    hide Encode, Decode, LineLength, Trim, TrimEnd;
    var line, b := LineOf(item), ItemBytes(item)[..j];
    CutLine(line, j);
    CutDecodes(line, j);
    assert b[|b|..] == [] && b[..|b|] == b;
    CutRead(b);
    forall c: nat | CutBehind(item, j, c) ensures DecodeText(b) == Ok(line[..c]) {}
    if DecodeText(b).Ok? {
      assert CutBehind(item, j, |DecodeText(b).value|);
    }
    forall c: nat | c <= |line|
      ensures Trim(line[..c]) == Arrived(item, c) && ("{" <= Arrived(item, c) <==> |item.lead| < c)
      ensures Arrived(item, c) == "" || |item.lead| < c
      ensures |item.lead| < c ==> Arrived(item, c) <= item.payload
      ensures |item.lead| < c ==> (Arrived(item, c) == item.payload <==> |item.lead| + |item.payload| <= c)
    {
      ArrivedTrims(item, c);
    }
  }

  /** A stream that is one line without its newline. */
  lemma CutRead(b: Bytes)
    requires LineLength(b) == |b|
    ensures match DecodeText(b)
            case Err(error) => b != [] ==> ReadMcp(b) == Failure(error)
            case Ok(t) =>
              (Trim(t) == "" ==> ReadMcp(b) == End) && ("{" <= Trim(t) ==> ReadMcp(b) == Message(Trim(t), []))
  {
    hide LineLength, Decode, Trim;
    assert b[|b|..] == [] && b[..|b|] == b;
    assert SkipBlankLines([]) == NoLine;
    if b == [] && DecodeText(b).Ok? {
      EncodeDecode(b);
      EmptyEncoding(DecodeText(b).value);
      TrimBlank("");
    }
  }

  lemma ArrivedTrims(item: Item, c: nat)
    requires item.OneLine? && ValidItem(item) && c <= |LineOf(item)|
    ensures Trim(LineOf(item)[..c]) == Arrived(item, c)
    ensures "{" <= Arrived(item, c) <==> |item.lead| < c
    ensures Arrived(item, c) == "" || |item.lead| < c
    ensures |item.lead| < c ==> Arrived(item, c) <= item.payload
    ensures |item.lead| < c ==> (Arrived(item, c) == item.payload <==> |item.lead| + |item.payload| <= c)
  {
    assert !IsSpace('{');
    hide Trim, TrimEnd, IsSpace;
    var lead, payload, trail := item.lead, item.payload, item.trail;
    var t := LineOf(item)[..c];
    BlankParts(lead, trail);
    if c <= |lead| {
      assert t == lead[..c];
      TrimBlank(t);
      NothingTrimmed(payload);
    } else if c < |lead| + |payload| {
      assert t == lead + payload[..c - |lead|];
      PartTrims(lead, payload[..c - |lead|]);
    } else {
      assert t == lead + payload + trail[..c - |lead| - |payload|];
      TrimCore(lead, payload, trail[..c - |lead| - |payload|]);
    }
  }

  lemma BlankParts(lead: string, trail: string)
    requires IsBlank(lead + trail)
    ensures IsBlank(lead) && IsBlank(trail)
  {
    assert forall i :: 0 <= i < |lead| ==> lead[i] == (lead + trail)[i];
    assert forall i :: 0 <= i < |trail| ==> trail[i] == (lead + trail)[|lead| + i];
  }

  lemma NothingTrimmed(payload: string)
    ensures TrimEnd(payload[..0]) == ""
  {}

  lemma PartTrims(lead: string, part: string)
    requires IsBlank(lead) && part != "" && part[0] == '{'
    ensures Trim(lead + part) == TrimEnd(part) && "{" <= TrimEnd(part) && TrimEnd(part) <= part
  {
    TrimStartBlank(lead, part);
    assert TrimStart(part) == part;
    var tail := TrimEndSplits(part);
    NotInBlank(TrimEnd(part), tail, 0);
  }

  lemma CutBlank(item: Item, j: nat)
    requires item.Blank? && ValidItem(item) && j < |ItemBytes(item)|
    ensures !ReadMcp(ItemBytes(item)[..j]).Message?
  {
    hide Encode, Decode, LineLength, Trim;
    var b := ItemBytes(item)[..j];
    CutLine(item.space, j);
    CutRead(b);
    if b == [] {
      assert SkipBlankLines(b) == NoLine;
    } else if DecodeText(b).Ok? {
      var t := DecodeText(b).value;
      assert forall i :: 0 <= i < |t| ==> t[i] == item.space[i];
      TrimBlank(t);
    }
  }

  /** What the first `j` bytes of an item deliver. */
  ghost predicate Delivers(item: Item, j: nat, messages: seq<string>) {
    match item
    case Headed(frame) =>
      messages == if frame.payload == "" && frame.crlf && j + 1 == |ItemBytes(item)| then [""] else []
    case OneLine(_, _, _) =>
      if exists c: nat :: CutBehind(item, j, c) && |item.lead| < c
      then exists c: nat :: CutBehind(item, j, c) && |item.lead| < c && messages == [Arrived(item, c)]
      else messages == []
    case Blank(_) => messages == []
  }

  /** The cut falls inside a one-line object, behind its brace and a whole character. */
  ghost predicate SplitsObject(item: Item, j: nat) {
    item.OneLine? && exists c: nat :: CutBehind(item, j, c) && |item.lead| < c < |item.lead| + |item.payload|
  }

  lemma CutItem(item: Item, j: nat) returns (messages: seq<string>)
    requires ValidItem(item) && j < |ItemBytes(item)|
    ensures messages == ReadAll(Mcp, ItemBytes(item)[..j]).messages
    ensures Delivers(item, j, messages)
    ensures messages <= PayloadOf(item) <==> !SplitsObject(item, j)
    ensures |messages| <= |PayloadOf(item)|
  {
    hide ReadMcp, ReadAll, FrameBytes, ValidFrame, Encode, CutBehind;
    var b := ItemBytes(item)[..j];
    messages := ReadAll(Mcp, b).messages;
    ReadAllStep(Mcp, b);
    EndOfStream(Mcp);
    match item
    case Headed(frame) => CutFrame(Mcp, frame, j);
    case OneLine(_, _, _) =>
      CutOneLine(item, j);
      OneLineDelivers(item, j, messages);
    case Blank(_) => CutBlank(item, j);
  }

  lemma OneLineDelivers(item: Item, j: nat, messages: seq<string>)
    requires item.OneLine? && ValidItem(item) && |messages| <= 1
    requires |messages| == 1 <==> exists c: nat :: CutBehind(item, j, c) && |item.lead| < c
    requires forall c: nat :: CutBehind(item, j, c) && |item.lead| < c ==>
               messages == [Arrived(item, c)]
                   && (Arrived(item, c) == item.payload <==> |item.lead| + |item.payload| <= c)
    ensures Delivers(item, j, messages)
    ensures messages <= PayloadOf(item) <==> !SplitsObject(item, j)
  {
    hide CutBehind, Arrived, ValidItem;
    if c: nat :| CutBehind(item, j, c) && |item.lead| < c {
      assert messages[0] == Arrived(item, c);
      assert messages <= [item.payload] <==> messages[0] == item.payload;
    } else {
      assert messages == [];
    }
  }

  /**
   * An MCP stream cut after any byte delivers the payloads of the items wholly before the cut, and then
   * what the cut item delivers. The result is a prefix of what was sent exactly when the cut does not
   * split a one-line object behind a whole character.
   */
  lemma {:induction false} CutMcpSession(items: seq<Item>, k: nat) returns (n: nat, last: seq<string>)
    requires ValidItems(items) && k <= |StreamOf(items)|
    ensures n <= |items| && |StreamOf(items[..n])| <= k
    ensures n < |items| ==> k < |StreamOf(items[..n + 1])|
    ensures ReadAll(Mcp, StreamOf(items)[..k]).messages == Payloads(items[..n]) + last
    ensures if n < |items| then Delivers(items[n], k - |StreamOf(items[..n])|, last) else last == []
    ensures ReadAll(Mcp, StreamOf(items)[..k]).messages <= Payloads(items)
            <==> !(n < |items| && SplitsObject(items[n], k - |StreamOf(items[..n])|))
  {
    hide ReadAll, ItemBytes, ValidItem, Delivers, SplitsObject, PayloadOf;
    if items == [] {
      EndOfStream(Mcp);
      n, last := 0, [];
    } else if k < |ItemBytes(items[0])| {
      n := 0;
      assert StreamOf(items)[..k] == ItemBytes(items[0])[..k];
      StreamPrefix(items, 0);
      last := CutItem(items[0], k);
      PrefixOfFirst(last, PayloadOf(items[0]), Payloads(items[1..]));
    } else {
      CutLaterItem(items, k);
      var k' := k - |ItemBytes(items[0])|;
      var m: nat;
      m, last := CutMcpSession(items[1..], k');
      hide StreamOf, ValidItems;
      n := m + 1;
      StreamPrefix(items, m);
      if n < |items| {
        StreamPrefix(items, n);
      }
      SamePrefix(PayloadOf(items[0]), ReadAll(Mcp, StreamOf(items[1..])[..k']).messages, Payloads(items[1..]));
    }
  }

  /** The cut falls behind the first item. */
  lemma CutLaterItem(items: seq<Item>, k: nat)
    requires ValidItems(items) && items != [] && |ItemBytes(items[0])| <= k <= |StreamOf(items)|
    ensures var k' := k - |ItemBytes(items[0])|;
            && ValidItems(items[1..]) && k' <= |StreamOf(items[1..])|
            && ReadAll(Mcp, StreamOf(items)[..k]).messages
               == PayloadOf(items[0]) + ReadAll(Mcp, StreamOf(items[1..])[..k']).messages
  {
    hide ReadAll, ItemBytes, ValidItem, PayloadOf;
    var first, rest := ItemBytes(items[0]), StreamOf(items[1..]);
    assert StreamOf(items)[..k] == first + rest[..k - |first|];
    ItemReadsBack(items[0], rest[..k - |first|]);
  }

  lemma StreamPrefix(items: seq<Item>, m: nat)
    requires m < |items|
    ensures StreamOf(items[..m + 1]) == ItemBytes(items[0]) + StreamOf(items[1..][..m])
    ensures Payloads(items[..m + 1]) == PayloadOf(items[0]) + Payloads(items[1..][..m])
    ensures Payloads(items) == PayloadOf(items[0]) + Payloads(items[1..])
  {
    hide ItemBytes, PayloadOf;
    assert items[..m + 1][1..] == items[1..][..m];
  }

  lemma PrefixOfFirst(s: seq<string>, a: seq<string>, b: seq<string>)
    requires |s| <= |a|
    ensures s <= a + b <==> s <= a
  {
    assert s <= a + b ==> forall i :: 0 <= i < |s| ==> s[i] == (a + b)[i] == a[i];
  }

  lemma SamePrefix(a: seq<string>, s: seq<string>, t: seq<string>)
    ensures a + s <= a + t <==> s <= t
  {
    if a + s <= a + t {
      forall i | 0 <= i < |s| ensures s[i] == t[i] {
        assert (a + s)[|a| + i] == (a + t)[|a| + i];
      }
    }
  }

  /** With nothing but the opening brace, the reader already takes a message. */
  lemma CutOneLineExample()
    ensures ValidItem(OneLine("", "{}", "")) && SplitsObject(OneLine("", "{}", ""), 1)
    ensures ReadMcp(ItemBytes(OneLine("", "{}", ""))[..1]) == Message("{", [])
  {
    var item := OneLine("", "{}", "");
    BraceBytes();
    assert LineOf(item) == "{}" && "{}"[..1] == "{";
    assert CutBehind(item, 1, 1);
    assert TrimEnd("{") == "{";
    assert Arrived(item, 1) == "{";
    hide Encode, CutBehind, Arrived;
    CutOneLine(item, 1);
  }

  lemma BraceBytes()
    ensures Encode("{") == [0x7B] && |Encode("{}" + "\n")| > 1
  {
    EncodeAppend("{", "}" + "\n");
    EncodeAppend("}", "\n");
    EncodeNewline();
    assert "{" + ("}" + "\n") == "{}" + "\n";
  }
}
