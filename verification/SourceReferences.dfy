/**
 * The `source-reference` production (Arazzo Specification 1.1.0, section 5.9) and the two
 * fields that read it: a step's `operationId` and a workflow's `dependsOn`.
 */
module SourceReferences {
  import opened Options
  import opened Strings
  import opened Utf8

  // ----- The grammar -----

  predicate IsHexDigit(c: char) {
    '0' <= c <= '9' || 'a' <= c <= 'f' || 'A' <= c <= 'F'
  }

  predicate IsUnescaped(c: char) {
    var u := c as int;
    0x20 <= u <= 0x21 || 0x23 <= u <= 0x5b || 0x5d <= u <= 0x7a || u == 0x7c || 0x7e <= u
  }

  predicate IsEscapable(c: char) {
    c in {'"', '\\', '/', 'b', 'f', 'n', 'r', 't'}
  }

  /** One CHAR of the grammar. */
  predicate IsCharToken(t: string) {
    || (|t| == 1 && IsUnescaped(t[0]))
    || (|t| == 2 && t[0] == '\\' && IsEscapable(t[1]))
    || (|t| == 6 && t[0] == '\\' && t[1] == 'u' && forall i :: 2 <= i < 6 ==> IsHexDigit(t[i]))
  }

  function Concat(tokens: seq<string>): string {
    if tokens == [] then "" else tokens[0] + Concat(tokens[1..])
  }

  ghost predicate IsDerivation(tokens: seq<string>, value: string) {
    Concat(tokens) == value && forall i :: 0 <= i < |tokens| ==> IsCharToken(tokens[i])
  }

  /** `source-reference-id = 1*CHAR`. */
  ghost predicate IsReferenceId(value: string) {
    exists tokens :: |tokens| > 0 && IsDerivation(tokens, value)
  }

  /** The character classes by what they leave out, or by what they list. */
  lemma CharClasses(c: char)
    ensures IsUnescaped(c) <==> c >= ' ' && c !in "\"\\{}"
    ensures IsEscapable(c) <==> c in "\"\\/bfnrt"
    ensures IsHexDigit(c) <==> c in "0123456789abcdefABCDEF"
  {
    hide IsHexDigit;
    HexDigits(c);
  }

  lemma HexDigits(c: char)
    ensures IsHexDigit(c) <==> c in "0123456789abcdefABCDEF"
  {
    var all := "0123456789abcdefABCDEF";
    if IsHexDigit(c) {
      var u := c as int;
      var k := if u < 0x41 then u - 0x30 else if u < 0x61 then u - 0x41 + 16 else u - 0x61 + 10;
      assert all[k] == c;
    }
  }

  // ----- The recogniser -----

  /** Length of the CHAR that `s` starts with, or 0. */
  function TokenLength(s: string): (n: nat)
    ensures n <= |s|
  {
    if |s| >= 1 && s[0] != '\\' then (if IsUnescaped(s[0]) then 1 else 0)
    else if |s| >= 2 && s[1] != 'u' then (if IsEscapable(s[1]) then 2 else 0)
    else if |s| >= 6 && IsHexDigit(s[2]) && IsHexDigit(s[3]) && IsHexDigit(s[4]) && IsHexDigit(s[5]) then 6
    else 0
  }

  predicate IsChars(s: string) {
    s == "" || (TokenLength(s) > 0 && IsChars(s[TokenLength(s)..]))
  }

  lemma TokenLengthExact(t: string, rest: string)
    requires IsCharToken(t)
    ensures TokenLength(t + rest) == |t|
  {}

  lemma {:induction false} DerivationIsChars(tokens: seq<string>, value: string)
    requires IsDerivation(tokens, value)
    ensures IsChars(value)
  {
    if tokens != [] {
      TokenLengthExact(tokens[0], Concat(tokens[1..]));
      assert value[|tokens[0]|..] == Concat(tokens[1..]);
      DerivationIsChars(tokens[1..], Concat(tokens[1..]));
    }
  }

  lemma {:induction false} CharsDerive(value: string) returns (tokens: seq<string>)
    requires IsChars(value)
    ensures IsDerivation(tokens, value) && (value != "" ==> tokens != [])
  {
    if value == "" {
      tokens := [];
    } else {
      var n := TokenLength(value);
      var rest := CharsDerive(value[n..]);
      tokens := [value[..n]] + rest;
      assert tokens[1..] == rest;
      assert IsCharToken(value[..n]);
    }
  }

  lemma CharsAreReferenceIds(value: string)
    ensures (value != "" && IsChars(value)) <==> IsReferenceId(value)
  {
    if value != "" && IsChars(value) {
      var tokens := CharsDerive(value);
    }
    if IsReferenceId(value) {
      var tokens :| |tokens| > 0 && IsDerivation(tokens, value);
      DerivationIsChars(tokens, value);
    }
  }

  /** The length of the CHAR at an index, or 0. */
  ghost function TokenAt(value: string, at: nat): nat
    requires at <= |value|
  {
    TokenLength(value[at..])
  }

  ghost predicate CharsFrom(value: string, at: nat)
    requires at <= |value|
  {
    IsChars(value[at..])
  }

  lemma TokenAtIs(value: string, at: nat)
    requires at < |value|
    ensures TokenAt(value, at) ==
            if value[at] != '\\' then (if IsUnescaped(value[at]) then 1 else 0)
            else if at + 1 < |value| && value[at + 1] != 'u' then (if IsEscapable(value[at + 1]) then 2 else 0)
            else if at + 6 <= |value| && forall i :: at + 2 <= i < at + 6 ==> IsHexDigit(value[i]) then 6
            else 0
  {
    hide IsHexDigit, IsUnescaped, IsEscapable;
    var rest := value[at..];
    assert forall i :: 0 <= i < |rest| ==> rest[i] == value[at + i];
    assert at + 6 <= |value| ==> forall i :: at + 2 <= i < at + 6 ==> value[i] == rest[i - at];
  }

  lemma CharsFromIs(value: string, at: nat)
    requires at < |value|
    ensures var n := TokenAt(value, at);
            at + n <= |value| && CharsFrom(value, at) == (n > 0 && CharsFrom(value, at + n))
  {
    hide TokenLength;
    var n := TokenLength(value[at..]);
    assert value[at..][n..] == value[at + n..];
  }

  lemma CharsFromEnds(value: string)
    ensures CharsFrom(value, 0) == IsChars(value) && CharsFrom(value, |value|)
  {
    assert value[0..] == value;
  }

  /** The character loop accepts exactly the nonempty CHAR sequences. */
  method IsSourceReferenceId(value: string) returns (ok: bool)
    ensures ok <==> IsReferenceId(value)
  {
    CharsAreReferenceIds(value);
    CharsFromEnds(value);
    var next, tokenCount := 0, 0;
    hide TokenAt, CharsFrom, IsChars, IsHexDigit, IsUnescaped, IsEscapable, IsReferenceId;
    while next < |value|
      invariant 0 <= next <= |value|
      invariant tokenCount > 0 <==> next > 0
      invariant tokenCount >= 0
      invariant IsChars(value) == CharsFrom(value, next)
    {
      ghost var start := next;
      TokenAtIs(value, start);
      CharsFromIs(value, start);
      var ch := value[next];
      next, tokenCount := next + 1, tokenCount + 1;
      if ch == '\\' {
        if next == |value| {
          return false;
        }
        var escaped := value[next];
        next := next + 1;
        if escaped == 'u' {
          for digit := 0 to 4
            invariant next == start + 2 + digit <= |value|
            invariant forall i :: start + 2 <= i < next ==> IsHexDigit(value[i])
          {
            if next == |value| || !IsHexDigit(value[next]) {
              return false;
            }
            next := next + 1;
          }
        } else if !IsEscapable(escaped) {
          return false;
        }
      } else if !IsUnescaped(ch) {
        return false;
      }
      assert next == start + TokenAt(value, start);
    }
    return tokenCount > 0;
  }

  predicate IsIdentifierByte(b: Byte) {
    0x30 <= b <= 0x39 || 0x41 <= b <= 0x5A || 0x61 <= b <= 0x7A || b == 0x2D || b == 0x5F
  }

  /** `identifier-strict = 1*( ALPHA / DIGIT / "-" / "_" )`, tested on the UTF-8 bytes. */
  predicate IsIdentifierStrict(value: string) {
    value != "" && forall i :: 0 <= i < |Encode(value)| ==> IsIdentifierByte(Encode(value)[i])
  }

  predicate IsIdentifierChar(c: char) {
    '0' <= c <= '9' || 'A' <= c <= 'Z' || 'a' <= c <= 'z' || c == '-' || c == '_'
  }

  lemma {:induction false} IdentifierBytesAreChars(value: string)
    ensures (forall i :: 0 <= i < |Encode(value)| ==> IsIdentifierByte(Encode(value)[i]))
            <==> (forall i :: 0 <= i < |value| ==> IsIdentifierChar(value[i]))
  {
    if value != "" {
      IdentifierBytesAreChars(value[1..]);
      var head, tail := EncodeChar(value[0]), Encode(value[1..]);
      var b := Encode(value);
      assert forall i :: 0 <= i < |tail| ==> tail[i] == b[i + |head|];
      assert forall i :: 0 <= i < |head| ==> head[i] == b[i];
      assert forall i :: 0 <= i < |value[1..]| ==> value[1..][i] == value[i + 1];
    }
  }

  lemma InRun(run: string, first: char, c: char)
    requires forall i :: 0 <= i < |run| ==> run[i] as int == first as int + i
    ensures c in run <==> first as int <= c as int < first as int + |run|
  {
    if first as int <= c as int < first as int + |run| {
      assert run[c as int - first as int] == c;
    }
  }

  /** Letters, digits, hyphens and underscores, one by one. */
  lemma IdentifierCharExact(c: char)
    ensures IsIdentifierChar(c) <==> c in "ABCDEFGHIJKLMNOPQRSTUVWXYZ" || c in "abcdefghijklmnopqrstuvwxyz"
                                     || c in "0123456789" || c == '-' || c == '_'
  {
    Capitals(c);
    SmallLetters(c);
    InRun("0123456789", '0', c);
  }

  lemma Capitals(c: char)
    ensures c in "ABCDEFGHIJKLMNOPQRSTUVWXYZ" <==> 'A' <= c <= 'Z'
  {
    InRun("ABCDEFGHIJKLMNOPQRSTUVWXYZ", 'A', c);
  }

  lemma SmallLetters(c: char)
    ensures c in "abcdefghijklmnopqrstuvwxyz" <==> 'a' <= c <= 'z'
  {
    InRun("abcdefghijklmnopqrstuvwxyz", 'a', c);
  }

  /** A strict identifier is not empty, and has no other characters. */
  lemma StrictExact(value: string)
    ensures IsIdentifierStrict(value) <==> |value| > 0 && forall i :: 0 <= i < |value| ==> IsIdentifierChar(value[i])
  {
    hide IsIdentifierByte, IsIdentifierChar, Encode;
    IdentifierBytesAreChars(value);
  }

  lemma StrictNames(name: string, c: char)
    requires IsIdentifierStrict(name) && !IsIdentifierChar(c)
    ensures c !in name
  {
    IdentifierBytesAreChars(name);
  }

  // ----- `parse_source_reference` -----

  datatype SourceReference = SourceReference(sourceName: string, referenceId: string)

  datatype SourceReferenceError = MissingSeparator | SourceName | ReferenceId

  /** Parses the text that follows the namespace; the split is at the first dot. */
  function ParseSourceReference(reference: string): Result<SourceReference, SourceReferenceError> {
    match SplitOnce(reference, ".")
    case None => Err(MissingSeparator)
    case Some((sourceName, referenceId)) =>
      if !IsIdentifierStrict(sourceName) then Err(SourceName)
      else if !(referenceId != "" && IsChars(referenceId)) then Err(ReferenceId)
      else Ok(SourceReference(sourceName, referenceId))
  }

  /** `reference` is the production with these two segments. */
  ghost predicate IsProduction(reference: string, sourceName: string, referenceId: string) {
    reference == sourceName + "." + referenceId && IsIdentifierStrict(sourceName) && IsReferenceId(referenceId)
  }

  /** The parser accepts the production and nothing else, and its split is the only one. */
  lemma ParseExact(reference: string, sourceName: string, referenceId: string)
    ensures ParseSourceReference(reference) == Ok(SourceReference(sourceName, referenceId))
            <==> IsProduction(reference, sourceName, referenceId)
  {
    CharsAreReferenceIds(referenceId);
    SplitOnceJoins(reference, ".");
    if IsProduction(reference, sourceName, referenceId) {
      StrictNames(sourceName, '.');
      SplitOnceAt(sourceName, ".", referenceId);
    }
  }

  /** Each refusal names the first rule broken, reading from the left. */
  lemma ParseRefusals(reference: string)
    ensures ParseSourceReference(reference) == Err(MissingSeparator) <==> '.' !in reference
    ensures ParseSourceReference(reference) == Err(SourceName) <==>
            exists n, id :: reference == n + "." + id && '.' !in n && !IsIdentifierStrict(n)
    ensures ParseSourceReference(reference) == Err(ReferenceId) <==>
            exists n, id :: reference == n + "." + id && IsIdentifierStrict(n) && !IsReferenceId(id)
  {
    SplitOnceNone(reference, '.');
    match SplitOnce(reference, ".") {
      case None =>
      case Some((n, id)) => assert reference == n + "." + id && '.' !in n;
    }
    forall n, id | reference == n + "." + id && '.' !in n ensures SplitOnce(reference, ".") == Some((n, id)) {
      SplitOnceAt(n, ".", id);
    }
    forall n | IsIdentifierStrict(n) ensures '.' !in n {
      StrictNames(n, '.');
    }
    forall id ensures (id != "" && IsChars(id)) <==> IsReferenceId(id) {
      CharsAreReferenceIds(id);
    }
  }

  // ----- The two classifiers -----

  const QUALIFIED_NAMESPACE := "$sourceDescriptions"

  datatype MalformedOperationId = MissingOperationId | BadSourceName | BadOperationId

  datatype OperationIdTarget =
    | Bare(name: string)
    | SourceQualified(sourceName: string, operationId: string)
    | Malformed(reason: MalformedOperationId)

  function FromReferenceError(error: SourceReferenceError): MalformedOperationId {
    match error
    case MissingSeparator => MissingOperationId
    case SourceName => BadSourceName
    case ReferenceId => BadOperationId
  }

  function ClassifyOperationId(operationId: string): OperationIdTarget {
    match StripPrefix(operationId, QUALIFIED_NAMESPACE)
    case None => Bare(operationId)
    case Some(rest) =>
      match StripPrefix(rest, ".")
      case None => if rest == "" then Malformed(MissingOperationId) else Bare(operationId)
      case Some(reference) =>
        match ParseSourceReference(reference)
        case Ok(parsed) => SourceQualified(parsed.sourceName, parsed.referenceId)
        case Err(error) => Malformed(FromReferenceError(error))
  }

  datatype WorkflowDependency = Local(id: string) | External(sourceName: string, workflowId: string) | Invalid

  function ClassifyWorkflowDependency(value: string): WorkflowDependency {
    if value == "" then Invalid
    else if !("$" <= value) then Local(value)
    else
      match StripPrefix(value, QUALIFIED_NAMESPACE + ".")
      case None => Invalid
      case Some(reference) =>
        match ParseSourceReference(reference)
        case Ok(parsed) => External(parsed.sourceName, parsed.referenceId)
        case Err(_) => Invalid
  }

  lemma OnPrefix(reference: string)
    ensures var value, parsed := QUALIFIED_NAMESPACE + "." + reference, ParseSourceReference(reference);
            && ClassifyOperationId(value) ==
               (if parsed.Ok? then SourceQualified(parsed.value.sourceName, parsed.value.referenceId)
                                              else Malformed(FromReferenceError(parsed.error)))
            && ClassifyWorkflowDependency(value) ==
               (if parsed.Ok? then External(parsed.value.sourceName, parsed.value.referenceId)
                                                     else Invalid)
  {
    hide ParseSourceReference;
    var value := QUALIFIED_NAMESPACE + "." + reference;
    assert value[|QUALIFIED_NAMESPACE|..] == "." + reference;
    assert value[|QUALIFIED_NAMESPACE + "."|..] == reference;
  }

  lemma OffPrefix(value: string)
    requires !(QUALIFIED_NAMESPACE + "." <= value)
    ensures !ClassifyOperationId(value).SourceQualified? && !ClassifyWorkflowDependency(value).External?
    ensures ClassifyOperationId(value).Bare? <==> value != QUALIFIED_NAMESPACE
    ensures ClassifyWorkflowDependency(value).Local? <==> value != "" && value[0] != '$'
  {
    hide ParseSourceReference;
    if QUALIFIED_NAMESPACE <= value {
      assert value[..|QUALIFIED_NAMESPACE|] + value[|QUALIFIED_NAMESPACE|..] == value;
    }
  }

  /** A value is source-qualified exactly when it is the namespace, a dot and the production. */
  lemma QualifiedExact(value: string, n: string, id: string)
    ensures ClassifyOperationId(value) == SourceQualified(n, id) <==>
            value == "$sourceDescriptions." + (n + "." + id) && IsIdentifierStrict(n) && IsReferenceId(id)
    ensures ClassifyWorkflowDependency(value) == External(n, id) <==>
            value == "$sourceDescriptions." + (n + "." + id) && IsIdentifierStrict(n) && IsReferenceId(id)
  {
    hide ClassifyOperationId, ClassifyWorkflowDependency, ParseSourceReference, IsIdentifierStrict, IsReferenceId;
    if QUALIFIED_NAMESPACE + "." <= value {
      var reference := value[|QUALIFIED_NAMESPACE + "."|..];
      assert value == QUALIFIED_NAMESPACE + "." + reference;
      OnPrefix(reference);
      ParseExact(reference, n, id);
    } else {
      OffPrefix(value);
    }
  }

  lemma MalformedBehind(reference: string, reason: MalformedOperationId)
    ensures ClassifyOperationId(QUALIFIED_NAMESPACE + "." + reference) == Malformed(reason) <==>
            match reason
            case MissingOperationId => '.' !in reference
            case BadSourceName => exists n, id :: reference == n + "." + id && '.' !in n && !IsIdentifierStrict(n)
            case BadOperationId =>
              exists n, id :: reference == n + "." + id && IsIdentifierStrict(n) && !IsReferenceId(id)
  {
    hide ClassifyOperationId, ParseSourceReference, IsIdentifierStrict, IsReferenceId;
    OnPrefix(reference);
    ParseRefusals(reference);
  }

  lemma Behind(prefix: string, reference: string)
    ensures forall text :: prefix + reference == prefix + text <==> reference == text
  {
    forall text | prefix + reference == prefix + text ensures reference == text {
      assert (prefix + reference)[|prefix|..] == reference && (prefix + text)[|prefix|..] == text;
    }
  }

  /** A malformed value lacks the dot behind the source's name, or has a bad name, or else a bad id. */
  lemma MalformedExact(value: string, reason: MalformedOperationId)
    ensures ClassifyOperationId(value) == Malformed(reason) <==>
            match reason
            case MissingOperationId =>
              value == QUALIFIED_NAMESPACE || exists n :: value == QUALIFIED_NAMESPACE + "." + n && '.' !in n
            case BadSourceName =>
              exists n, id :: value == QUALIFIED_NAMESPACE + "." + (n + "." + id) && '.' !in n && !IsIdentifierStrict(n)
            case BadOperationId =>
              exists n, id :: value == QUALIFIED_NAMESPACE + "." + (n + "." + id)
                              && IsIdentifierStrict(n) && !IsReferenceId(id)
  {
    hide ClassifyOperationId, IsIdentifierStrict, IsReferenceId;
    var prefix := QUALIFIED_NAMESPACE + ".";
    if prefix <= value {
      var reference := value[|prefix|..];
      assert value == prefix + reference && |value| > |QUALIFIED_NAMESPACE|;
      MalformedBehind(reference, reason);
      Behind(prefix, reference);
    } else {
      OffPrefixExact(value);
      forall text ensures value != prefix + text {}
    }
  }

  lemma OffPrefixExact(value: string)
    requires !(QUALIFIED_NAMESPACE + "." <= value)
    ensures ClassifyOperationId(value) ==
            if value == QUALIFIED_NAMESPACE then Malformed(MissingOperationId) else Bare(value)
  {
    hide ParseSourceReference;
    if QUALIFIED_NAMESPACE <= value {
      assert value[..|QUALIFIED_NAMESPACE|] + value[|QUALIFIED_NAMESPACE|..] == value;
    }
  }

  /** On the shared prefix the two classifiers split alike or refuse alike. */
  lemma ClassifiersAgree(reference: string)
    ensures var value := QUALIFIED_NAMESPACE + "." + reference;
            match ClassifyOperationId(value)
            case SourceQualified(n, id) => ClassifyWorkflowDependency(value) == External(n, id)
            case Malformed(_) => ClassifyWorkflowDependency(value) == Invalid
            case Bare(_) => false
  {
    OnPrefix(reference);
  }
}
