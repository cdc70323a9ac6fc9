/** Reserved `{$...}` candidates inside literal-or-expression text. */
module ExpressionStrings {
  import opened Options
  import opened Strings
  import opened Utf8
  import opened RuntimeExpressions

  /** An embedded expression with its ranges, braces included and excluded. */
  datatype Embedded = Embedded(full: Range, inner: Range, expression: Expression)

  /** An unclosed candidate (`syntax`), or one whose inner text does not parse. */
  datatype ScanError = ScanError(syntax: bool, range: Range)

  type Item = Result<Embedded, ScanError>

  const OPENER: Bytes := [OPEN, DOLLAR]

  /** The two markers as text. */
  lemma Markers()
    ensures OPENER == Encode("{$") && [CLOSE] == Encode("}") && [DOLLAR] == Encode("$")
  {
    assert "{$"[1..] == "$" && "$"[1..] == "";
  }

  function Slice(input: Bytes, r: Range): Bytes
    requires r.start <= r.end <= |input|
  {
    input[r.start..r.end]
  }

  // ----- The scanner -----

  datatype Candidate = NoCandidate | Unclosed(start: nat) | Closed(start: nat, end: nat)

  /** The first `{$` at or after `from`, closed by the first `}` behind it. */
  function NextCandidate(input: Bytes, from: nat): Candidate
    requires from <= |input|
  {
    match Find(input[from..], OPENER)
    case None => NoCandidate
    case Some(offset) =>
      var start := from + offset;
      match Find(input[start + 1..], [CLOSE])
      case None => Unclosed(start)
      case Some(close) => Closed(start, start + 1 + close + 1)
  }

  function Offset(r: Range, base: nat): Range {
    Range(base + r.start, base + r.end)
  }

  function NextItem(lib: Library, input: Bytes, from: nat): (item: Option<Item>)
    requires from <= |input|
    ensures item.Some? && item.value.Ok? ==> from < item.value.value.full.end <= |input|
  {
    match NextCandidate(input, from)
    case NoCandidate => None
    case Unclosed(start) => Some(Err(ScanError(true, Range(start, |input|))))
    case Closed(start, end) =>
      match lib.parse(input[start + 1..end - 1])
      case Ok(expression) => Some(Ok(Embedded(Range(start, end), Range(start + 1, end - 1), expression)))
      case Err(range) => Some(Err(ScanError(false, Offset(range, start + 1))))
  }

  /** Every embedded expression in order, or the first error. */
  function Scan(lib: Library, input: Bytes, from: nat): Result<seq<Embedded>, ScanError>
    requires from <= |input|
    decreases |input| - from
  {
    match NextItem(lib, input, from)
    case None => Ok([])
    case Some(Err(error)) => Err(error)
    case Some(Ok(embedded)) =>
      match Scan(lib, input, embedded.full.end)
      case Ok(rest) => Ok([embedded] + rest)
      case Err(error) => Err(error)
  }

  /** The iterator: the cursor is taken on entry and put back only after a success. */
  class Scanner {
    const input: Bytes
    var cursor: Option<nat>

    ghost predicate Valid()
      reads this
    {
      cursor.Some? ==> cursor.value <= |input|
    }

    constructor (input: Bytes)
      ensures Valid() && this.input == input && cursor == Some(0)
    {
      this.input := input;
      cursor := Some(0);
    }

    method Next(lib: Library) returns (item: Option<Item>)
      requires Valid()
      modifies this
      ensures Valid()
      ensures item == if old(cursor).None? then None else NextItem(lib, input, old(cursor).value)
      ensures cursor == if item.Some? && item.value.Ok? then Some(item.value.value.full.end) else None
    {
      if cursor.None? {
        return None;
      }
      var cursorStart := cursor.value;
      cursor := None;
      var offset := Find(input[cursorStart..], OPENER);
      if offset.None? {
        return None;
      }
      var start := cursorStart + offset.value;
      var innerStart := start + 1;
      var closeOffset := Find(input[innerStart..], [CLOSE]);
      if closeOffset.None? {
        return Some(Err(ScanError(true, Range(start, |input|))));
      }
      var innerEnd := innerStart + closeOffset.value;
      match lib.parse(input[innerStart..innerEnd]) {
        case Err(error) =>
          return Some(Err(ScanError(false, Range(innerStart + error.start, innerStart + error.end))));
        case Ok(expression) =>
          var end := innerEnd + 1;
          cursor := Some(end);
          return Some(Ok(Embedded(Range(start, end), Range(innerStart, innerEnd), expression)));
      }
    }
  }

  datatype ValueStringSyntax =
    | Literal(text: Bytes)
    | Whole(expression: Expression)
    | Template(expressions: seq<Embedded>)

  function Classify(lib: Library, input: Bytes): Result<ValueStringSyntax, ScanError> {
    match lib.parse(input)
    case Ok(expression) => Ok(Whole(expression))
    case Err(_) =>
      match Scan(lib, input, 0)
      case Err(error) => Err(error)
      case Ok(expressions) => Ok(if expressions == [] then Literal(input) else Template(expressions))
  }

  method ClassifyValueString(lib: Library, input: Bytes) returns (r: Result<ValueStringSyntax, ScanError>)
    ensures r == Classify(lib, input)
  {
    match lib.parse(input) {
      case Ok(expression) => return Ok(Whole(expression));
      case Err(_) =>
    }
    var scanner := new Scanner(input);
    var expressions: seq<Embedded> := [];
    var item := scanner.Next(lib);
    CollectFirst(lib, input, 0);
    while item.Some? && item.value.Ok?
      invariant scanner.Valid() && scanner.input == input
      invariant item.Some? && item.value.Ok? ==>
                  scanner.cursor == Some(item.value.value.full.end) && item.value.value.full.end <= |input|
      invariant Scan(lib, input, 0) == Collect(lib, input, expressions, item)
      decreases if item.Some? && item.value.Ok? then |input| - item.value.value.full.end else -1
    {
      CollectNext(lib, input, expressions, item.value.value);
      expressions := expressions + [item.value.value];
      item := scanner.Next(lib);
    }
    if item.Some? {
      return Err(item.value.error);
    }
    return Ok(if expressions == [] then Literal(input) else Template(expressions));
  }

  /** What a scan yields once `done` has been collected and `item` is next. */
  ghost function Collect(lib: Library, input: Bytes, done: seq<Embedded>,
                         item: Option<Item>): Result<seq<Embedded>, ScanError>
    requires item.Some? && item.value.Ok? ==> item.value.value.full.end <= |input|
  {
    match item
    case None => Ok(done)
    case Some(Err(error)) => Err(error)
    case Some(Ok(embedded)) =>
      match Scan(lib, input, embedded.full.end)
      case Ok(rest) => Ok(done + [embedded] + rest)
      case Err(error) => Err(error)
  }

  lemma CollectFirst(lib: Library, input: Bytes, from: nat)
    requires from <= |input|
    ensures Scan(lib, input, from) == Collect(lib, input, [], NextItem(lib, input, from))
  {
    var item := NextItem(lib, input, from);
    if item.Some? && item.value.Ok? {
      var embedded := item.value.value;
      assert forall rest :: [] + [embedded] + rest == [embedded] + rest;
    }
  }

  lemma CollectNext(lib: Library, input: Bytes, done: seq<Embedded>, embedded: Embedded)
    requires embedded.full.end <= |input|
    ensures Collect(lib, input, done, Some(Ok(embedded)))
            == Collect(lib, input, done + [embedded], NextItem(lib, input, embedded.full.end))
  {
    var item := NextItem(lib, input, embedded.full.end);
    if item.Some? && item.value.Ok? {
      var next := item.value.value;
      assert forall rest :: done + [embedded] + [next] + rest == done + [embedded] + ([next] + rest);
    }
    assert done + [embedded] + [] == done + [embedded];
  }

  // ----- The decomposition -----

  /** No `{$` starts in [from, to). */
  ghost predicate Gap(input: Bytes, from: nat, to: nat) {
    from <= to <= |input| && forall p :: from <= p < to ==> !OccursAt(input, OPENER, p)
  }

  ghost predicate NoClose(input: Bytes, from: nat, to: nat) {
    from <= to <= |input| && forall p :: from <= p < to ==> input[p] != CLOSE
  }

  /** A `{$` closed by the first `}` behind it. */
  ghost predicate IsSpan(input: Bytes, r: Range) {
    r.start + 2 < r.end <= |input| && OccursAt(input, OPENER, r.start)
    && input[r.end - 1] == CLOSE && NoClose(input, r.start + 1, r.end - 1)
  }

  function EndOf(from: nat, spans: seq<Range>): nat {
    if spans == [] then from else spans[|spans| - 1].end
  }

  /** `spans` are all closed candidates in order; `tail` is where an unclosed one starts, if any does. */
  ghost predicate IsDecomposition(input: Bytes, from: nat, spans: seq<Range>, tail: Option<nat>) {
    && (forall i :: 0 <= i < |spans| ==> IsSpan(input, spans[i]) && Gap(input, EndOf(from, spans[..i]), spans[i].start))
    && match tail
       case None => Gap(input, EndOf(from, spans), |input|)
       case Some(u) => Gap(input, EndOf(from, spans), u) && OccursAt(input, OPENER, u) && NoClose(input, u + 1, |input|)
  }

  lemma OccursInTail<T>(input: seq<T>, p: seq<T>, a: nat, j: nat)
    requires a <= |input|
    ensures OccursAt(input[a..], p, j) <==> OccursAt(input, p, a + j)
  {
    if a + j + |p| <= |input| {
      assert input[a..][j..j + |p|] == input[a + j..a + j + |p|];
    }
  }

  lemma FindFrom<T>(input: seq<T>, p: seq<T>, a: nat)
    requires a <= |input|
    ensures match Find(input[a..], p)
            case None => forall q :: a <= q ==> !OccursAt(input, p, q)
            case Some(i) => OccursAt(input, p, a + i) && forall q :: a <= q < a + i ==> !OccursAt(input, p, q)
  {
    FindExact(input[a..], p);
    forall q | a <= q ensures OccursAt(input[a..], p, q - a) <==> OccursAt(input, p, q) {
      OccursInTail(input, p, a, q - a);
    }
    match Find(input[a..], p) {
      case None =>
      case Some(i) => OccursInTail(input, p, a, i);
    }
  }

  lemma FindOpen(input: Bytes, a: nat)
    requires a <= |input|
    ensures match Find(input[a..], OPENER)
            case None => Gap(input, a, |input|)
            case Some(i) => Gap(input, a, a + i) && OccursAt(input, OPENER, a + i) && a + i + 2 <= |input|
  {
    FindFrom(input, OPENER, a);
  }

  lemma FindClose(input: Bytes, a: nat)
    requires a <= |input|
    ensures match Find(input[a..], [CLOSE])
            case None => NoClose(input, a, |input|)
            case Some(i) => a + i < |input| && input[a + i] == CLOSE && NoClose(input, a, a + i)
  {
    FindFrom(input, [CLOSE], a);
    forall q | 0 <= q < |input| ensures OccursAt(input, [CLOSE], q) <==> input[q] == CLOSE {
      assert input[q..q + 1] == [input[q]];
    }
  }

  lemma OpenerBytes(input: Bytes, p: nat)
    requires OccursAt(input, OPENER, p)
    ensures p + 2 <= |input| && input[p] == OPEN && input[p + 1] == DOLLAR
  {
    assert input[p..p + 2][0] == OPEN && input[p..p + 2][1] == DOLLAR;
  }

  lemma CandidateExact(input: Bytes, from: nat)
    requires from <= |input|
    ensures match NextCandidate(input, from)
            case NoCandidate => Gap(input, from, |input|)
            case Unclosed(start) =>
              Gap(input, from, start) && OccursAt(input, OPENER, start) && NoClose(input, start + 1, |input|)
            case Closed(start, end) => Gap(input, from, start) && IsSpan(input, Range(start, end))
  {
    hide OccursAt, Gap, NoClose, Find;
    FindOpen(input, from);
    match Find(input[from..], OPENER) {
      case None =>
      case Some(offset) =>
        OpenerBytes(input, from + offset);
        FindClose(input, from + offset + 1);
    }
  }

  /** A decomposition has no choice about where its first candidate lies. */
  lemma CandidateForced(input: Bytes, from: nat, spans: seq<Range>, tail: Option<nat>)
    requires from <= |input| && IsDecomposition(input, from, spans, tail)
    ensures NextCandidate(input, from) ==
            if spans != [] then Closed(spans[0].start, spans[0].end)
            else if tail.Some? then Unclosed(tail.value) else NoCandidate
    ensures spans != [] ==> from <= spans[0].start && spans[0].start + 2 < spans[0].end <= |input|
  {
    CandidateExact(input, from);
    if spans != [] {
      assert spans[..0] == [];
      assert IsSpan(input, spans[0]) && Gap(input, from, spans[0].start);
    }
  }

  lemma TailDecomposition(input: Bytes, from: nat, spans: seq<Range>, tail: Option<nat>)
    requires spans != []
    ensures IsDecomposition(input, from, spans, tail) <==>
            IsSpan(input, spans[0]) && Gap(input, from, spans[0].start)
                && IsDecomposition(input, spans[0].end, spans[1..], tail)
  {
    hide IsSpan, Gap, NoClose;
    assert spans[..0] == [];
    var rest := spans[1..];
    assert EndOf(spans[0].end, rest) == EndOf(from, spans);
    forall i | 0 < i < |spans|
      ensures spans[i] == rest[i - 1] && EndOf(from, spans[..i]) == EndOf(spans[0].end, rest[..i - 1]) {
      assert spans[..i][i - 1] == spans[i - 1];
    }
    if IsSpan(input, spans[0]) && Gap(input, from, spans[0].start) && IsDecomposition(input, spans[0].end, rest, tail) {
      forall i | 0 <= i < |spans|
        ensures IsSpan(input, spans[i]) && Gap(input, EndOf(from, spans[..i]), spans[i].start) {
        if i > 0 {
          assert IsSpan(input, rest[i - 1]) && Gap(input, EndOf(spans[0].end, rest[..i - 1]), rest[i - 1].start);
        }
      }
    }
    if IsDecomposition(input, from, spans, tail) {
      forall i | 0 <= i < |rest|
        ensures IsSpan(input, rest[i]) && Gap(input, EndOf(spans[0].end, rest[..i]), rest[i].start) {
        assert IsSpan(input, spans[i + 1]) && Gap(input, EndOf(from, spans[..i + 1]), spans[i + 1].start);
      }
    }
  }

  /** Every text decomposes ... */
  lemma {:induction false} Decompose(input: Bytes, from: nat) returns (spans: seq<Range>, tail: Option<nat>)
    requires from <= |input|
    ensures IsDecomposition(input, from, spans, tail)
    decreases |input| - from
  {
    CandidateExact(input, from);
    match NextCandidate(input, from) {
      case NoCandidate => spans, tail := [], None;
      case Unclosed(start) => spans, tail := [], Some(start);
      case Closed(start, end) =>
        var rest, tail' := Decompose(input, end);
        spans, tail := [Range(start, end)] + rest, tail';
        assert spans[1..] == rest;
        TailDecomposition(input, from, spans, tail);
    }
  }

  /** ... in exactly one way. */
  lemma {:induction false} DecompositionUnique(input: Bytes, from: nat, spans: seq<Range>, tail: Option<nat>,
                                              spans': seq<Range>, tail': Option<nat>)
    requires from <= |input| && IsDecomposition(input, from, spans, tail) && IsDecomposition(input, from, spans', tail')
    ensures spans == spans' && tail == tail'
    decreases |spans|
  {
    hide IsDecomposition, NextCandidate, IsSpan, Gap;
    CandidateForced(input, from, spans, tail);
    CandidateForced(input, from, spans', tail');
    if spans != [] && spans' != [] {
      TailDecomposition(input, from, spans, tail);
      TailDecomposition(input, from, spans', tail');
      DecompositionUnique(input, spans[0].end, spans[1..], tail, spans'[1..], tail');
      assert spans == [spans[0]] + spans[1..];
      assert spans' == [spans'[0]] + spans'[1..];
    }
  }

  // ----- What a scan reports -----

  function Inner(input: Bytes, r: Range): Bytes
    requires r.start + 2 <= r.end <= |input|
  {
    input[r.start + 1..r.end - 1]
  }

  ghost predicate Parses(lib: Library, input: Bytes, r: Range) {
    r.start + 2 <= r.end <= |input| && lib.parse(Inner(input, r)).Ok?
  }

  /** The scanned items are the decomposition's spans, each with its own inner text parsed. */
  ghost predicate Matches(lib: Library, input: Bytes, spans: seq<Range>, items: seq<Embedded>) {
    |items| == |spans| && forall i :: 0 <= i < |items| ==>
      Parses(lib, input, spans[i])
      && items[i] == Embedded(spans[i], Range(spans[i].start + 1, spans[i].end - 1),
         lib.parse(Inner(input, spans[i])).value)
  }

  ghost predicate FailsWith(lib: Library, input: Bytes, r: Range, error: ScanError) {
    IsSpan(input, r) && lib.parse(Inner(input, r)).Err?
    && error == ScanError(false, Offset(lib.parse(Inner(input, r)).error, r.start + 1))
  }

  /** The first violation: an inner text that does not parse, or else the unclosed candidate. */
  ghost predicate IsFirstError(lib: Library, input: Bytes, spans: seq<Range>, tail: Option<nat>, error: ScanError) {
    || (tail.Some? && error == ScanError(true, Range(tail.value, |input|))
        && forall i :: 0 <= i < |spans| ==> Parses(lib, input, spans[i]))
    || (exists k :: 0 <= k < |spans| && FailsWith(lib, input, spans[k], error)
         && forall i :: 0 <= i < k ==> Parses(lib, input, spans[i]))
  }

  lemma FirstErrorLater(lib: Library, input: Bytes, spans: seq<Range>, tail: Option<nat>, error: ScanError)
    requires spans != [] && Parses(lib, input, spans[0]) && IsFirstError(lib, input, spans[1..], tail, error)
    ensures IsFirstError(lib, input, spans, tail, error)
  {
    hide Parses, FailsWith;
    var rest := spans[1..];
    if tail.Some? && error == ScanError(true, Range(tail.value, |input|)) && forall i :: 0 <= i < |rest| ==>
      Parses(lib, input, rest[i]) {
      assert forall i :: 0 < i < |spans| ==> spans[i] == rest[i - 1];
    } else {
      var k :| 0 <= k < |rest| && FailsWith(lib, input, rest[k], error)
               && forall i :: 0 <= i < k ==> Parses(lib, input, rest[i]);
      assert spans[k + 1] == rest[k];
      assert forall i :: 0 < i < k + 1 ==> spans[i] == rest[i - 1];
    }
  }

  /** A scan takes the decomposition's first span, or stops where there is none. */
  lemma ScanStep(lib: Library, input: Bytes, from: nat, spans: seq<Range>, tail: Option<nat>)
    requires from <= |input| && IsDecomposition(input, from, spans, tail)
    ensures spans == [] ==>
              Scan(lib, input, from) ==
              if tail.Some? then Err(ScanError(true, Range(tail.value, |input|))) else Ok([])
    ensures spans != [] ==>
              var head := spans[0];
              && head.start + 2 < head.end <= |input| && IsSpan(input, head)
              && IsDecomposition(input, head.end, spans[1..], tail)
              && Scan(lib, input, from) ==
                 match lib.parse(Inner(input, head))
                 case Err(range) => Err(ScanError(false, Offset(range, head.start + 1)))
                 case Ok(expression) =>
                   match Scan(lib, input, head.end)
                   case Ok(rest) => Ok([Embedded(head, Range(head.start + 1, head.end - 1), expression)] + rest)
                   case Err(error) => Err(error)
  {
    hide IsDecomposition, NextCandidate, Gap, IsSpan;
    CandidateForced(input, from, spans, tail);
    if spans != [] {
      TailDecomposition(input, from, spans, tail);
    }
  }

  lemma MatchesLater(lib: Library, input: Bytes, spans: seq<Range>, first: Embedded, items: seq<Embedded>)
    requires spans != [] && Parses(lib, input, spans[0]) && Matches(lib, input, spans[1..], items)
    requires first == Embedded(spans[0], Range(spans[0].start + 1, spans[0].end - 1),
                lib.parse(Inner(input, spans[0])).value)
    ensures Matches(lib, input, spans, [first] + items)
  {
    hide Parses;
    assert forall i :: 0 < i < |spans| ==> spans[i] == spans[1..][i - 1];
  }

  lemma ParsesLater(lib: Library, input: Bytes, spans: seq<Range>)
    requires spans != []
    ensures (forall i :: 0 <= i < |spans| ==> Parses(lib, input, spans[i])) <==>
            Parses(lib, input, spans[0]) && forall i :: 0 <= i < |spans[1..]| ==> Parses(lib, input, spans[1..][i])
  {
    hide Parses;
    assert forall i :: 0 < i < |spans| ==> spans[i] == spans[1..][i - 1];
    assert forall i :: 0 <= i < |spans[1..]| ==> spans[1..][i] == spans[i + 1];
  }

  /** Success is the whole decomposition; failure is its first violation, never a partial list. */
  lemma {:induction false} ScanExact(lib: Library, input: Bytes, from: nat, spans: seq<Range>, tail: Option<nat>)
    requires from <= |input| && IsDecomposition(input, from, spans, tail)
    ensures match Scan(lib, input, from)
            case Ok(items) => tail.None? && Matches(lib, input, spans, items)
            case Err(error) => IsFirstError(lib, input, spans, tail, error)
    ensures Scan(lib, input, from).Ok? <==> tail.None? && forall i :: 0 <= i < |spans| ==> Parses(lib, input, spans[i])
    decreases |spans|
  {
    hide IsDecomposition, IsSpan, Scan;
    ScanStep(lib, input, from, spans, tail);
    if spans != [] {
      var head := spans[0];
      ParsesLater(lib, input, spans);
      if lib.parse(Inner(input, head)).Ok? {
        ScanExact(lib, input, head.end, spans[1..], tail);
        hide Matches, IsFirstError;
        match Scan(lib, input, head.end) {
          case Ok(items) =>
            MatchesLater(lib, input, spans, Scan(lib, input, from).value[0], items);
          case Err(error) =>
            FirstErrorLater(lib, input, spans, tail, error);
        }
      }
    }
  }

  /**
   * A text that parses is one whole expression, whatever it names. Any other text is read through its
   * decomposition: literal without a candidate, a template of exactly its spans, or its first violation.
   */
  lemma ClassifyExact(lib: Library, input: Bytes, spans: seq<Range>, tail: Option<nat>)
    requires IsDecomposition(input, 0, spans, tail)
    ensures lib.parse(input).Ok? ==> Classify(lib, input) == Ok(Whole(lib.parse(input).value))
    ensures lib.parse(input).Err? ==>
              match Classify(lib, input)
              case Ok(Whole(_)) => false
              case Ok(Literal(text)) => text == input && spans == [] && tail.None?
              case Ok(Template(items)) => spans != [] && tail.None? && Matches(lib, input, spans, items)
              case Err(error) => IsFirstError(lib, input, spans, tail, error)
  {
    hide Scan, IsDecomposition, IsFirstError, Parses;
    ScanExact(lib, input, 0, spans, tail);
  }

  /** Braces and dollars are ASCII, so every span, inner text and stretch between spans is whole characters. */
  lemma SpansAreText(input: Bytes, r: Range, before: nat)
    requires ValidUtf8(input) && IsSpan(input, r) && before <= r.start
    requires before == 0 || input[before - 1] == CLOSE
    ensures ValidUtf8(Slice(input, r)) && ValidUtf8(Inner(input, r)) && ValidUtf8(input[before..r.start])
  {
    hide ValidUtf8, IsBoundary, OccursAt, NoClose;
    OpenerBytes(input, r.start);
    AsciiIsBoundary(input, r.start);
    AsciiIsBoundary(input, r.end - 1);
    if before > 0 {
      AsciiIsBoundary(input, before - 1);
    } else {
      StartIsBoundary(input);
    }
    SliceIsText(input, r.start, r.end);
    SliceIsText(input, r.start + 1, r.end - 1);
    SliceIsText(input, before, r.start);
  }

  lemma TailOpens(input: Bytes, from: nat, spans: seq<Range>, tail: Option<nat>)
    requires IsDecomposition(input, from, spans, tail) && tail.Some?
    ensures OccursAt(input, OPENER, tail.value)
  {}

  lemma TailIsText(input: Bytes, u: nat)
    requires ValidUtf8(input) && OccursAt(input, OPENER, u)
    ensures u <= |input| && ValidUtf8(input[u..|input|])
  {
    OpenerBytes(input, u);
    AsciiIsBoundary(input, u);
    SliceIsText(input, u, |input|);
  }

  lemma SpanFits(input: Bytes, r: Range)
    requires IsSpan(input, r)
    ensures r.start + 2 < r.end <= |input|
  {}

  lemma InnerErrorIsText(lib: Library, input: Bytes, span: Range, error: ScanError)
    requires Lawful(lib) && ValidUtf8(input) && FailsWith(lib, input, span, error)
    ensures error.range.start <= error.range.end <= |input| && ValidUtf8(input[error.range.start..error.range.end])
  {
    hide ValidUtf8, Lawful, IsSpan;
    SpanFits(input, span);
    SpansAreText(input, span, 0);
    ParseErrorIsText(lib, Inner(input, span));
    SliceOfSlice(input, span.start + 1, span.end - 1, lib.parse(Inner(input, span)).error);
  }

  lemma ParseErrorIsText(lib: Library, t: Bytes)
    requires Lawful(lib) && ValidUtf8(t) && lib.parse(t).Err?
    ensures var r := lib.parse(t).error; r.start <= r.end <= |t| && ValidUtf8(t[r.start..r.end])
  {
    hide ValidUtf8, Canonical;
  }

  lemma SliceOfSlice(input: Bytes, a: nat, b: nat, r: Range)
    requires a <= b <= |input|
    ensures r.start <= r.end <= b - a ==> input[a..b][r.start..r.end] == input[a + r.start..a + r.end]
  {}

  /** An error range, too, slices the input into whole characters. */
  lemma ErrorRangeIsText(lib: Library, input: Bytes)
    requires Lawful(lib) && ValidUtf8(input) && Scan(lib, input, 0).Err?
    ensures var r := Scan(lib, input, 0).error.range; r.start <= r.end <= |input| && ValidUtf8(input[r.start..r.end])
  {
    hide Scan, ValidUtf8, Lawful, IsDecomposition, FailsWith;
    var spans, tail := Decompose(input, 0);
    ScanExact(lib, input, 0, spans, tail);
    var error := Scan(lib, input, 0).error;
    if tail.Some? && error == ScanError(true, Range(tail.value, |input|)) {
      TailOpens(input, 0, spans, tail);
      TailIsText(input, tail.value);
    } else {
      var k :| 0 <= k < |spans| && FailsWith(lib, input, spans[k], error);
      InnerErrorIsText(lib, input, spans[k], error);
    }
  }
}
