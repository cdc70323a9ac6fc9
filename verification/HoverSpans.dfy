/** The span of a line that the editor offers for evaluation under the cursor. */
module HoverSpans {
  import opened Options

  /** A UTF-16 code unit, the unit of editor positions. */
  type Unit = u: int | 0 <= u < 0x1_0000

  type Line = seq<Unit>

  const DOLLAR: Unit := 0x24
  const SLASH: Unit := 0x2F
  const DOT: Unit := 0x2E
  const HASH: Unit := 0x23

  datatype Span = Span(start: nat, end: nat, expression: Line)

  function SpanFor(line: Line, start: nat, end: nat): (r: Span)
    requires start <= end <= |line|
    ensures r.start == start && r.end == end
  {
    Span(start, end, line[start..end])
  }

  predicate IsSpace(u: Unit) {
    || 0x09 <= u <= 0x0D || u == 0x20 || u == 0xA0 || u == 0x1680 || 0x2000 <= u <= 0x200A
    || u == 0x2028 || u == 0x2029 || u == 0x202F || u == 0x205F || u == 0x3000 || u == 0xFEFF
  }

  /** White space, or one of `,{}'"`. */
  predicate IsTokenBoundary(u: Unit) {
    IsSpace(u) || u == 0x2C || u == 0x7B || u == 0x7D || u == 0x27 || u == 0x22
  }

  /** The units that end a token, one by one: white space as a regular expression has it, and five marks. */
  lemma BoundaryExact(u: Unit)
    ensures IsSpace(u) <==> u in {
              0x0009, 0x000A, 0x000B, 0x000C, 0x000D, 0x0020, 0x00A0, 0x1680, 0x2000, 0x2001, 0x2002, 0x2003,
              0x2004, 0x2005, 0x2006, 0x2007, 0x2008, 0x2009, 0x200A, 0x2028, 0x2029, 0x202F, 0x205F, 0x3000, 0xFEFF}
    ensures IsTokenBoundary(u) <==> IsSpace(u) || (u < 0x80 && u as char in ",{}'\"")
    ensures [DOLLAR as char, SLASH as char, DOT as char, HASH as char] == "$/.#"
  {}

  /** Behind the end of the line there is no boundary. */
  predicate BoundaryAt(line: Line, i: nat) {
    i < |line| && IsTokenBoundary(line[i])
  }

  // ----- Tokens -----

  predicate StartsWith(line: Line, marker: Line, i: nat) {
    i + |marker| <= |line| && line[i..i + |marker|] == marker
  }

  /** The marker stands at `i`, at the start of the line or behind a boundary. */
  ghost predicate Starts(line: Line, marker: Line, i: nat) {
    && i + |marker| <= |line|
    && (forall k :: 0 <= k < |marker| ==> line[i + k] == marker[k])
    && (i == 0 || IsTokenBoundary(line[i - 1]))
  }

  lemma StartsWithExact(line: Line, marker: Line, i: nat)
    ensures StartsWith(line, marker, i) <==>
            i + |marker| <= |line| && forall k :: 0 <= k < |marker| ==> line[i + k] == marker[k]
  {
    if i + |marker| <= |line| {
      var part := line[i..i + |marker|];
      assert forall k :: 0 <= k < |part| ==> part[k] == line[i + k];
    }
  }

  predicate IsMarker(marker: Line) {
    marker != [] && !IsTokenBoundary(marker[0])
  }

  /** A token starts at `start`, and the cursor stands in it with no boundary from there on. */
  ghost predicate InToken(line: Line, marker: Line, start: nat, character: nat) {
    && Starts(line, marker, start)
    && start <= character
    && forall i: nat :: start < i <= character ==> !BoundaryAt(line, i)
  }

  /** The start of the token that the cursor stands in: there is at most one, and it is found. */
  method FindTokenStart(line: Line, character: nat, marker: Line) returns (r: Option<nat>)
    requires IsMarker(marker) && character <= |line|
    ensures r.None? ==> forall s: nat :: !InToken(line, marker, s, character)
    ensures r.Some? ==> InToken(line, marker, r.value, character)
  {
    var n: nat := character + 1;
    while n > 0
      invariant n <= character + 1
      invariant forall s: nat :: n <= s <= character ==> !Starts(line, marker, s)
      invariant forall i: nat :: n <= i <= character ==> !BoundaryAt(line, i)
    {
      var start: nat := n - 1;
      StartsWithExact(line, marker, start);
      if StartsWith(line, marker, start) {
        if start == 0 || IsTokenBoundary(line[start - 1]) {
          return Some(start);
        }
      }
      if BoundaryAt(line, start) {
        return None;
      }
      n := start;
    }
    return None;
  }

  lemma OneToken(line: Line, marker: Line, character: nat, a: nat, b: nat)
    requires IsMarker(marker) && InToken(line, marker, a, character) && InToken(line, marker, b, character)
    ensures a == b
  {
    assert line[a] == marker[0] && line[b] == marker[0];
    if a < b {
      assert BoundaryAt(line, b - 1);
    } else if b < a {
      assert BoundaryAt(line, a - 1);
    }
  }

  /** The end of the token: the first boundary, or the end of the line. */
  ghost predicate IsTokenEnd(line: Line, start: nat, end: nat) {
    && start <= end <= |line|
    && (end == |line| || BoundaryAt(line, end))
    && forall i: nat :: start <= i < end ==> !BoundaryAt(line, i)
  }

  method FindExpressionTokenEnd(line: Line, start: nat) returns (end: nat)
    requires start <= |line|
    ensures IsTokenEnd(line, start, end)
  {
    end := start;
    while end < |line| && !IsTokenBoundary(line[end])
      invariant start <= end <= |line| && forall i: nat :: start <= i < end ==> !BoundaryAt(line, i)
    {
      end := end + 1;
    }
  }

  // ----- Segments -----

  /** `indexOf` from a position. */
  function IndexFrom(line: Line, u: Unit, from: nat): (r: Option<nat>)
    ensures r.Some? ==>
              from <= r.value < |line| && line[r.value] == u && forall i :: from <= i < r.value ==> line[i] != u
    ensures r.None? ==> forall i :: from <= i < |line| ==> line[i] != u
    decreases |line| - from
  {
    if from >= |line| then None
    else if line[from] == u then Some(from)
    else IndexFrom(line, u, from + 1)
  }

  /** The first of the delimiters within `[from, end)`, or `end`. */
  function SegmentEnd(line: Line, from: nat, end: nat, delimiter: Unit): (r: nat)
    requires end <= |line|
    ensures r <= end && (from <= end ==> from <= r)
    decreases end - from
  {
    if from >= end then end
    else if line[from] == delimiter then from
    else SegmentEnd(line, from + 1, end, delimiter)
  }

  lemma {:induction false} SegmentEndExact(line: Line, from: nat, end: nat, delimiter: Unit)
    requires from <= end <= |line|
    ensures var r := SegmentEnd(line, from, end, delimiter);
            && (r == end || line[r] == delimiter)
            && forall i :: from <= i < r ==> line[i] != delimiter
    decreases end - from
  {
    if from < end && line[from] != delimiter {
      SegmentEndExact(line, from + 1, end, delimiter);
    }
  }

  /** A start further right, short of the segment's end, has the same segment end. */
  lemma {:induction false} SegmentEndSkips(line: Line, from: nat, to: nat, end: nat, delimiter: Unit)
    requires from <= to <= end <= |line| && forall i :: from <= i < to ==> line[i] != delimiter
    ensures SegmentEnd(line, from, end, delimiter) == SegmentEnd(line, to, end, delimiter)
    decreases |line| - from
  {
    if from < to {
      SegmentEndSkips(line, from + 1, to, end, delimiter);
    }
  }

  lemma SegmentEndBeyond(line: Line, from: nat, end: nat, delimiter: Unit)
    requires end <= |line| && end <= from
    ensures SegmentEnd(line, from, end, delimiter) == end
  {}

  lemma IndexIsSegmentEnd(line: Line, from: nat, end: nat, delimiter: Unit)
    requires from <= end <= |line|
    ensures SegmentEnd(line, from, end, delimiter) ==
            match IndexFrom(line, delimiter, from) case None => end case Some(i) => if i > end then end else i
  {
    SegmentEndExact(line, from, end, delimiter);
  }

  lemma {:induction false} SegmentEndMonotone(line: Line, from: nat, to: nat, end: nat, delimiter: Unit)
    requires from <= to && end <= |line|
    ensures SegmentEnd(line, from, end, delimiter) <= SegmentEnd(line, to, end, delimiter)
  {
    if to <= end {
      SegmentEndExact(line, from, end, delimiter);
      SegmentEndExact(line, to, end, delimiter);
    }
  }

  function Max(a: nat, b: nat): nat {
    if a < b then b else a
  }

  /** Ends with the segment of the cursor. */
  method PrefixThroughDelimitedSegment(line: Line, start: nat, end: nat, character: nat,
                                       delimiter: Unit)
    returns (r: Span)
    requires start <= end <= |line|
    ensures r == SpanFor(line, start, SegmentEnd(line, Max(start, character), end, delimiter))
  {
    var segmentStart := start;
    while segmentStart < end
      invariant start <= segmentStart <= end + 1
      invariant segmentStart == start || segmentStart <= character
      decreases end + 1 - segmentStart
    {
      var nextDelimiter := IndexFrom(line, delimiter, segmentStart);
      var segmentEnd := if nextDelimiter.None? || nextDelimiter.value > end then end else nextDelimiter.value;
      IndexIsSegmentEnd(line, segmentStart, end, delimiter);
      if character <= segmentEnd {
        SegmentEndExact(line, segmentStart, end, delimiter);
        SegmentEndSkips(line, segmentStart, Max(segmentStart, character), end, delimiter);
        return SpanFor(line, start, segmentEnd);
      }
      segmentStart := segmentEnd + 1;
    }
    return SpanFor(line, start, end);
  }

  function PointerEnd(line: Line, hash: nat, end: nat, character: nat): (r: nat)
    requires hash < end <= |line|
    ensures hash <= r <= end
  {
    if hash + 1 == end || line[hash + 1] != SLASH then end
    else if character <= hash + 1 then hash
    else SegmentEnd(line, character, end, SLASH)
  }

  method PrefixThroughJsonPointerSegment(line: Line, start: nat, hash: nat, end: nat, character: nat) returns (r: Span)
    requires start <= hash < end <= |line| && hash < character
    ensures r == SpanFor(line, start, PointerEnd(line, hash, end, character))
  {
    var slash := hash + 1;
    var previousSegmentEnd := hash;
    hide SegmentEnd, IndexFrom, SpanFor;
    while slash < end
      invariant hash < slash <= end
      invariant slash == hash + 1 ==> previousSegmentEnd == hash
      invariant slash > hash + 1 ==>
                line[hash + 1] == SLASH && slash < character
                && (slash == end || line[slash] == SLASH)
    {
      if line[slash] != SLASH {
        return SpanFor(line, start, end);
      }
      if character <= slash {
        return SpanFor(line, start, previousSegmentEnd);
      }
      var nextSlash := IndexFrom(line, SLASH, slash + 1);
      var segmentEnd := if nextSlash.None? || nextSlash.value > end then end else nextSlash.value;
      IndexIsSegmentEnd(line, slash + 1, end, SLASH);
      if character <= segmentEnd {
        SegmentEndSkips(line, slash + 1, character, end, SLASH);
        return SpanFor(line, start, segmentEnd);
      }
      previousSegmentEnd := segmentEnd;
      slash := segmentEnd;
    }
    if end < character {
      SegmentEndBeyond(line, character, end, SLASH);
    }
    return SpanFor(line, start, end);
  }

  /** Where the span of a runtime expression token ends for a cursor. */
  function NarrowEnd(line: Line, start: nat, end: nat, character: nat): (r: nat)
    requires start <= end <= |line|
    ensures start <= r <= end
  {
    var hash := IndexFrom(line, HASH, start);
    if hash.None? || hash.value >= end then SegmentEnd(line, Max(start, character), end, DOT)
    else if character <= hash.value then SegmentEnd(line, Max(start, character), hash.value, DOT)
    else PointerEnd(line, hash.value, end, character)
  }

  method NarrowRuntimeExpression(line: Line, start: nat, end: nat, character: nat) returns (r: Span)
    requires start <= end <= |line|
    ensures r == SpanFor(line, start, NarrowEnd(line, start, end, character))
  {
    var hash := IndexFrom(line, HASH, start);
    var runtimeEnd := if hash.None? || hash.value >= end then end else hash.value;
    if character < runtimeEnd || hash.None? || hash.value >= end {
      r := PrefixThroughDelimitedSegment(line, start, runtimeEnd, character, DOT);
      return;
    }
    if character <= hash.value {
      r := PrefixThroughDelimitedSegment(line, start, runtimeEnd, character, DOT);
      return;
    }
    r := PrefixThroughJsonPointerSegment(line, start, hash.value, end, character);
  }

  /** `r` is the first delimiter from `from` on, short of `stop`, or `stop` itself. */
  ghost predicate EndsAt(line: Line, from: nat, stop: nat, delimiter: Unit, r: nat) {
    && r <= stop <= |line|
    && (r < stop ==> from <= r && line[r] == delimiter)
    && (from <= stop ==> from <= r)
    && forall i :: from <= i < r ==> line[i] != delimiter
  }

  lemma EndsAtIs(line: Line, from: nat, stop: nat, delimiter: Unit)
    requires stop <= |line|
    ensures EndsAt(line, from, stop, delimiter, SegmentEnd(line, from, stop, delimiter))
  {
    if from <= stop {
      SegmentEndExact(line, from, stop, delimiter);
    }
  }

  /** The first `#` of a token, or its end. */
  ghost predicate IsHash(line: Line, start: nat, end: nat, hash: nat) {
    && start <= hash <= end <= |line|
    && (hash < end ==> line[hash] == HASH)
    && forall i :: start <= i < hash ==> line[i] != HASH
  }

  /**
   * With the cursor up to the `#`, the span ends with the dotted part the cursor is in. Behind it, and with a
   * JSON Pointer there, it ends before the pointer, when the cursor is on its first slash, or with the
   * reference token of the cursor; with anything else behind the `#` it is the whole token.
   */
  lemma NarrowExact(line: Line, start: nat, end: nat, character: nat, hash: nat)
    requires start <= end <= |line| && IsHash(line, start, end, hash)
    ensures var r := NarrowEnd(line, start, end, character);
            if hash == end || character <= hash then
              EndsAt(line, if start < character then character else start, hash, DOT, r)
            else if hash + 1 < end && line[hash + 1] == SLASH then
              if character == hash + 1 then r == hash else EndsAt(line, character, end, SLASH, r)
            else r == end
  {
    hide SegmentEnd;
    EndsAtIs(line, Max(start, character), hash, DOT);
    EndsAtIs(line, character, end, SLASH);
    FirstHash(line, start, end, hash);
  }

  lemma FirstHash(line: Line, start: nat, end: nat, hash: nat)
    requires IsHash(line, start, end, hash)
    ensures var found := IndexFrom(line, HASH, start);
            if hash < end then found == Some(hash) else found.None? || found.value >= end
  {}

  // ----- `findInlineExpression` -----

  datatype Key = Condition | ContextKey | Selector | ValueKey | OtherKey

  /** The regular expressions: the key before a position, call syntax, and what else a condition may be. */
  datatype Patterns = Patterns(keyBefore: (Line, nat) -> Option<Key>, isCall: Line -> bool, isCondition: Line -> bool)

  predicate FirstIs(text: Line, u: Unit) {
    text != [] && text[0] == u
  }

  predicate IsExpressionForKey(patterns: Patterns, key: Option<Key>, expression: Line) {
    match key
    case Some(Selector) => FirstIs(expression, DOLLAR) || FirstIs(expression, SLASH) || patterns.isCall(expression)
    case Some(Condition) => FirstIs(expression, DOLLAR) || FirstIs(expression, SLASH)
      || patterns.isCondition(expression)
    case _ => FirstIs(expression, DOLLAR)
  }

  const DOLLAR_MARKER: Line := [DOLLAR]
  const XPATH_MARKER: Line := [SLASH, SLASH]

  /** The span of the `$` token under the cursor, if there is one. */
  ghost predicate IsDollarSpan(line: Line, character: nat, start: nat, end: nat, span: Span) {
    && InToken(line, DOLLAR_MARKER, start, character) && IsTokenEnd(line, start, end)
    && span == SpanFor(line, start, NarrowEnd(line, start, end, character))
  }

  /** The keys whose values may be paths; a path token is never judged by the regular expressions. */
  ghost predicate TakesPath(key: Option<Key>) {
    key == Some(Selector) || key == Some(Condition)
  }

  method FindInlineExpression(patterns: Patterns, line: Line, character: nat) returns (r: Option<Span>)
    requires character <= |line|
    ensures (exists s: nat :: InToken(line, DOLLAR_MARKER, s, character)) ==>
              r.Some? && exists end :: IsDollarSpan(line, character, r.value.start, end, r.value)
    ensures r.Some? && (forall s: nat :: !InToken(line, DOLLAR_MARKER, s, character)) ==>
              && InToken(line, XPATH_MARKER, r.value.start, character) && IsTokenEnd(line, r.value.start, r.value.end)
              && r.value == SpanFor(line, r.value.start, r.value.end)
              && TakesPath(patterns.keyBefore(line, r.value.start))
    ensures r.None? ==>
              forall s: nat, end: nat :: InToken(line, XPATH_MARKER, s, character) && IsTokenEnd(line, s, end) ==>
                !TakesPath(patterns.keyBefore(line, s))
  {
    hide NarrowEnd;
    var dollar := FindTokenStart(line, character, DOLLAR_MARKER);
    if dollar.Some? {
      var start := dollar.value;
      var end := FindExpressionTokenEnd(line, start);
      var key := patterns.keyBefore(line, start);
      var expression := line[start..end];
      assert line[start] == DOLLAR_MARKER[0];
      if IsExpressionForKey(patterns, key, expression) {
        var span := NarrowRuntimeExpression(line, start, end, character);
        assert IsDollarSpan(line, character, span.start, end, span);
        return Some(span);
      }
    }
    var slash := FindTokenStart(line, character, XPATH_MARKER);
    if slash.Some? {
      var key := patterns.keyBefore(line, slash.value);
      var end := FindExpressionTokenEnd(line, slash.value);
      var expression := line[slash.value..end];
      PathStarts(line, slash.value, end);
      if IsExpressionForKey(patterns, key, expression) {
        return Some(Span(slash.value, end, expression));
      }
      forall s: nat, e: nat | InToken(line, XPATH_MARKER, s, character) && IsTokenEnd(line, s, e)
        ensures s == slash.value && e == end {
        OneToken(line, XPATH_MARKER, character, s, slash.value);
        TokenEndUnique(line, s, e, end);
      }
    }
    return None;
  }

  lemma PathStarts(line: Line, start: nat, end: nat)
    requires Starts(line, XPATH_MARKER, start) && IsTokenEnd(line, start, end)
    ensures start < end && line[start..end][0] == SLASH
  {
    assert line[start + 0] == XPATH_MARKER[0];
  }

  // ----- Moving the cursor -----

  lemma TokenEndUnique(line: Line, start: nat, a: nat, b: nat)
    requires IsTokenEnd(line, start, a) && IsTokenEnd(line, start, b)
    ensures a == b
  {}

  /** The cursor is in the token from its start up to its last unit, and at the end of the line behind it. */
  lemma CursorsOfToken(line: Line, start: nat, end: nat, character: nat)
    requires Starts(line, DOLLAR_MARKER, start) && IsTokenEnd(line, start, end) && character <= |line|
    ensures InToken(line, DOLLAR_MARKER, start, character)
            <==> start <= character && (character < end || character == end == |line|)
  {
    assert Starts(line, DOLLAR_MARKER, start) ==> line[start] == DOLLAR_MARKER[0];
  }

  lemma PointerEndMonotone(line: Line, hash: nat, end: nat, a: nat, b: nat)
    requires hash < end <= |line| && hash < a <= b <= end
    ensures PointerEnd(line, hash, end, a) <= PointerEnd(line, hash, end, b)
    ensures a <= PointerEnd(line, hash, end, a) + 1
  {
    SegmentEndMonotone(line, a, b, end, SLASH);
  }

  lemma NarrowMonotone(line: Line, start: nat, end: nat, a: nat, b: nat)
    requires start <= a <= b <= end <= |line|
    ensures NarrowEnd(line, start, end, a) <= NarrowEnd(line, start, end, b)
    ensures a <= NarrowEnd(line, start, end, a) + 1
  {
    var hash := IndexFrom(line, HASH, start);
    if hash.None? || hash.value >= end {
      SegmentEndMonotone(line, a, b, end, DOT);
    } else if b <= hash.value {
      SegmentEndMonotone(line, a, b, hash.value, DOT);
    } else if a > hash.value {
      PointerEndMonotone(line, hash.value, end, a, b);
    }
  }

  /**
   * Moving the cursor right within one `$` token: every span is a prefix of the token from the same
   * `$`, none ends before an earlier one, and the cursor is at most one past the end.
   */
  lemma SpansGrow(line: Line, a: nat, b: nat, start: nat, endA: nat, spanA: Span, endB: nat, spanB: Span)
    requires a <= b <= |line|
    requires IsDollarSpan(line, a, start, endA, spanA) && IsDollarSpan(line, b, start, endB, spanB)
    ensures endA == endB && spanA.start == spanB.start == start && line[start] == DOLLAR
    ensures start < spanA.end <= spanB.end <= endB
    ensures spanA.expression <= spanB.expression <= line[start..endB]
    ensures a <= spanA.end + 1 && b <= spanB.end + 1
  {
    assert line[start] == DOLLAR_MARKER[0];
    TokenEndUnique(line, start, endA, endB);
    CursorsOfToken(line, start, endA, a);
    CursorsOfToken(line, start, endA, b);
    NarrowMonotone(line, start, endA, a, b);
    NarrowMonotone(line, start, endA, b, b);
    NarrowMonotone(line, start, endA, start, a);
    DollarIncluded(line, start, endA, start);
  }

  lemma DollarIncluded(line: Line, start: nat, end: nat, character: nat)
    requires start < end <= |line| && line[start] == DOLLAR && character == start
    ensures NarrowEnd(line, start, end, character) > start
  {
    var hash := IndexFrom(line, HASH, start);
    SegmentEndExact(line, start, end, DOT);
    if hash.Some? {
      SegmentEndExact(line, start, if hash.value < end then hash.value else end, DOT);
    }
  }
}
