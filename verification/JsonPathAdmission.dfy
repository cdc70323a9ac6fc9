/** The budgets a JSONPath query and its context must meet before evaluation. */
module JsonPathAdmission {
  import opened Options
  import opened Utf8
  import opened JsonValues

  const QUERY_BYTE_LIMIT := 16_384
  const QUERY_STRUCTURAL_LIMIT := 128
  const QUERY_NESTING_LIMIT := 8
  const CONTEXT_DEPTH_LIMIT := 128

  datatype Resource = QueryBytes | QueryStructural | QueryNesting | ContextDepth

  // ----- Bracket nesting -----

  const OPEN := 0x5B
  const CLOSE := 0x5D
  const BACKSLASH := 0x5C

  predicate IsQuote(u: int) {
    u == 0x27 || u == 0x22
  }

  /** Behind the closing quote of a literal; `None` when it never closes. A backslash hides one unit. */
  function SkipLiteral(s: seq<int>, quote: int): (rest: Option<seq<int>>)
    ensures rest.Some? ==> |rest.value| < |s|
  {
    if s == [] then None
    else if s[0] == BACKSLASH then (if |s| == 1 then None else SkipLiteral(s[2..], quote))
    else if s[0] == quote then Some(s[1..])
    else SkipLiteral(s[1..], quote)
  }

  function Step(depth: nat, u: int): nat {
    if u == OPEN then depth + 1 else if u == CLOSE then (if depth == 0 then 0 else depth - 1) else depth
  }

  /** The pass itself, over bytes or code points alike: true when nothing is refused. */
  function Admits(s: seq<int>, depth: nat): bool
    decreases |s|
  {
    if s == [] then true
    else if IsQuote(s[0]) then
      match SkipLiteral(s[1..], s[0])
      case None => true
      case Some(rest) => Admits(rest, depth)
    else Step(depth, s[0]) <= QUERY_NESTING_LIMIT && Admits(s[1..], Step(depth, s[0]))
  }

  lemma {:induction false} SkipLeavesSuffix(s: seq<int>, quote: int)
    ensures SkipLiteral(s, quote).Some? ==>
              SkipLiteral(s, quote).value == s[|s| - |SkipLiteral(s, quote).value|..]
  {
    if s != [] && s[0] == BACKSLASH && |s| > 1 {
      SkipLeavesSuffix(s[2..], quote);
    } else if s != [] && s[0] != quote && s[0] != BACKSLASH {
      SkipLeavesSuffix(s[1..], quote);
    }
  }

  /** The rest of the pass from index `at`. */
  ghost predicate AdmitsFrom(s: seq<int>, at: nat, depth: nat)
    requires at <= |s|
  {
    Admits(s[at..], depth)
  }

  /** Where a literal whose inside starts at index `at` is behind its closing quote. */
  ghost function SkipFrom(s: seq<int>, at: nat, quote: int): Option<nat>
    requires at <= |s|
  {
    match SkipLiteral(s[at..], quote) case None => None case Some(rest) => Some(|s| - |rest|)
  }

  lemma AdmitsAt(s: seq<int>, at: nat, depth: nat)
    requires at < |s|
    ensures if IsQuote(s[at]) then
              match SkipFrom(s, at + 1, s[at])
              case None => AdmitsFrom(s, at, depth)  // the rest is one unclosed literal
              case Some(end) => end <= |s| && AdmitsFrom(s, at, depth) == AdmitsFrom(s, end, depth)
            else
              var d := Step(depth, s[at]);
              AdmitsFrom(s, at, depth) == (d <= QUERY_NESTING_LIMIT && AdmitsFrom(s, at + 1, d))
  {
    assert s[at..][1..] == s[at + 1..];
    SkipLeavesSuffix(s[at + 1..], s[at]);
    match SkipLiteral(s[at + 1..], s[at]) {
      case None =>
      case Some(rest) => assert rest == s[|s| - |rest|..];
    }
  }

  lemma SkipAt(s: seq<int>, at: nat, quote: int)
    requires at < |s|
    ensures SkipFrom(s, at, quote) ==
            if s[at] == BACKSLASH then (if at + 1 == |s| then None else SkipFrom(s, at + 2, quote))
            else if s[at] == quote then Some(at + 1)
            else SkipFrom(s, at + 1, quote)
  {
    assert s[at..][1..] == s[at + 1..];
    assert at + 2 <= |s| ==> s[at..][2..] == s[at + 2..];
  }

  lemma AtTheEnd(s: seq<int>, depth: nat, quote: int)
    ensures AdmitsFrom(s, |s|, depth) && SkipFrom(s, |s|, quote).None?
  {}

  lemma FromTheStart(s: seq<int>, depth: nat)
    ensures AdmitsFrom(s, 0, depth) == Admits(s, depth)
  {
    assert s[0..] == s;
  }

  /** The inner loop: the index behind the closing quote of a literal, or none when it never closes. */
  method SkipQuoted(bytes: seq<int>, start: nat, quote: int) returns (end: Option<nat>)
    requires start <= |bytes|
    ensures end == SkipFrom(bytes, start, quote)
    ensures end.Some? ==> start < end.value <= |bytes|
  {
    hide SkipFrom;
    var next := start;
    while next < |bytes|
      invariant start <= next <= |bytes|
      invariant SkipFrom(bytes, start, quote) == SkipFrom(bytes, next, quote)
    {
      SkipAt(bytes, next, quote);
      var inner := bytes[next];
      next := next + 1;
      if inner == BACKSLASH {
        if next == |bytes| {
          return None;
        }
        next := next + 1;
      } else if inner == quote {
        return Some(next);
      }
    }
    AtTheEnd(bytes, 0, quote);
    return None;
  }

  method AdmitNesting(expression: string) returns (r: Result<(), Resource>)
    ensures r == if Admits(Encode(expression), 0) then Ok(()) else Err(QueryNesting)
  {
    var bytes: seq<int> := Encode(expression);
    var next, depth: nat := 0, 0;
    hide AdmitsFrom, SkipFrom, Admits, Encode;
    FromTheStart(bytes, 0);
    while next < |bytes|
      invariant 0 <= next <= |bytes| && depth <= QUERY_NESTING_LIMIT
      invariant Admits(bytes, 0) == AdmitsFrom(bytes, next, depth)
    {
      AdmitsAt(bytes, next, depth);
      var byte := bytes[next];
      next := next + 1;
      if IsQuote(byte) {
        var end := SkipQuoted(bytes, next, byte);
        if end.None? {
          return Ok(());
        }
        next := end.value;
      } else if byte == OPEN {
        depth := depth + 1;
        if depth > QUERY_NESTING_LIMIT {
          return Err(QueryNesting);
        }
      } else if byte == CLOSE {
        depth := if depth == 0 then 0 else depth - 1;
      }
    }
    AtTheEnd(bytes, depth, 0);
    return Ok(());
  }

  /** The inside of a literal: units but the quote, a backslash standing with the unit behind it. */
  ghost predicate IsInside(body: seq<int>, quote: int)
    decreases |body|
  {
    body == [] ||
    (if body[0] == '\\' as int then |body| > 1 && IsInside(body[2..], quote)
     else body[0] != quote && IsInside(body[1..], quote))
  }

  lemma {:induction false} SkipFinds(body: seq<int>, quote: int, rest: seq<int>)
    requires IsInside(body, quote) && quote != '\\' as int
    ensures SkipLiteral(body + [quote] + rest, quote) == Some(rest)
    decreases |body|
  {
    var s := body + [quote] + rest;
    if body == [] {
      assert s[1..] == rest;
    } else if body[0] == '\\' as int {
      assert s[2..] == body[2..] + [quote] + rest;
      SkipFinds(body[2..], quote, rest);
    } else {
      assert s[1..] == body[1..] + [quote] + rest;
      SkipFinds(body[1..], quote, rest);
    }
  }

  lemma {:induction false} SkippedInside(s: seq<int>, quote: int) returns (body: seq<int>)
    requires SkipLiteral(s, quote).Some?
    ensures IsInside(body, quote) && s == body + [quote] + SkipLiteral(s, quote).value
    decreases |s|
  {
    if s[0] == '\\' as int {
      var more := SkippedInside(s[2..], quote);
      body := s[..2] + more;
      assert body[2..] == more && s == s[..2] + s[2..];
    } else if s[0] == quote {
      body := [];
    } else {
      var more := SkippedInside(s[1..], quote);
      body := [s[0]] + more;
      assert body[1..] == more && s == [s[0]] + s[1..];
    }
  }

  lemma Quotes(u: int)
    ensures IsQuote(u) <==> u == '\'' as int || u == '"' as int
  {}

  /** A literal ends at the one quote of its kind that no backslash hides, and goes on for ever without one. */
  lemma SkipExact(s: seq<int>, quote: int, rest: seq<int>)
    requires IsQuote(quote)
    ensures SkipLiteral(s, quote) == Some(rest) <==>
            exists body :: IsInside(body, quote) && s == body + [quote] + rest
  {
    if SkipLiteral(s, quote) == Some(rest) {
      var body := SkippedInside(s, quote);
    }
    forall body | IsInside(body, quote) && s == body + [quote] + rest ensures SkipLiteral(s, quote) == Some(rest) {
      SkipFinds(body, quote, rest);
    }
  }

  // ----- What the pass decides -----

  /** The units outside literals, up to the first literal that never closes. */
  function Outside(s: seq<int>): seq<int>
    decreases |s|
  {
    if s == [] then []
    else if IsQuote(s[0]) then
      match SkipLiteral(s[1..], s[0])
      case None => []
      case Some(rest) => Outside(rest)
    else [s[0]] + Outside(s[1..])
  }

  /** Openings minus closings. */
  function Balance(s: seq<int>): int {
    if s == [] then 0
    else
      var last := s[|s| - 1];
      Balance(s[..|s| - 1]) + (if last == '[' as int then 1 else if last == ']' as int then -1 else 0)
  }

  /** Bracket depth behind `s`, floored at zero at every step. */
  function DepthAfter(depth: nat, s: seq<int>): nat {
    if s == [] then depth else Step(DepthAfter(depth, s[..|s| - 1]), s[|s| - 1])
  }

  lemma {:induction false} DepthAfterFirst(depth: nat, u: int, s: seq<int>)
    ensures DepthAfter(depth, [u] + s) == DepthAfter(Step(depth, u), s)
  {
    if s == [] {
      assert ([u] + s)[..0] == [];
    } else {
      assert ([u] + s)[..|s|] == [u] + s[..|s| - 1];
      DepthAfterFirst(depth, u, s[..|s| - 1]);
    }
  }

  /** No prefix of `s` takes the depth beyond the limit. */
  ghost predicate Within(depth: nat, s: seq<int>) {
    forall k :: 0 <= k <= |s| ==> DepthAfter(depth, s[..k]) <= QUERY_NESTING_LIMIT
  }

  lemma WithinFirst(depth: nat, u: int, s: seq<int>)
    ensures Within(depth, [u] + s) <==> depth <= QUERY_NESTING_LIMIT && Within(Step(depth, u), s)
  {
    var all := [u] + s;
    assert all[..0] == [];
    forall k | 0 <= k <= |s| ensures DepthAfter(depth, all[..k + 1]) == DepthAfter(Step(depth, u), s[..k]) {
      assert all[..k + 1] == [u] + s[..k];
      DepthAfterFirst(depth, u, s[..k]);
    }
    if depth <= QUERY_NESTING_LIMIT && Within(Step(depth, u), s) {
      forall k | 0 <= k <= |all| ensures DepthAfter(depth, all[..k]) <= QUERY_NESTING_LIMIT {
        if k > 0 {
          assert DepthAfter(depth, all[..k - 1 + 1]) == DepthAfter(Step(depth, u), s[..k - 1]);
        }
      }
    }
  }

  lemma {:induction false} AdmitsIsDepth(s: seq<int>, depth: nat)
    requires depth <= QUERY_NESTING_LIMIT
    ensures Admits(s, depth) <==> Within(depth, Outside(s))
    decreases |s|
  {
    if s != [] {
      if IsQuote(s[0]) {
        match SkipLiteral(s[1..], s[0]) {
          case None =>
          case Some(rest) => AdmitsIsDepth(rest, depth);
        }
      } else {
        var depth' := Step(depth, s[0]);
        WithinFirst(depth, s[0], Outside(s[1..]));
        if depth' <= QUERY_NESTING_LIMIT {
          AdmitsIsDepth(s[1..], depth');
        } else {
          var rest := Outside(s[1..]);
          assert DepthAfter(depth', rest[..0]) == depth';
        }
      }
    }
  }

  /** The floored depth is the largest surplus of openings over closings in any trailing stretch. */
  lemma {:induction false} DepthIsSurplus(s: seq<int>)
    ensures forall i :: 0 <= i <= |s| ==> Balance(s[i..]) <= DepthAfter(0, s)
    ensures exists i :: 0 <= i <= |s| && Balance(s[i..]) == DepthAfter(0, s)
  {
    if s == [] {
      assert Balance(s[0..]) == 0;
    } else {
      var shorter := s[..|s| - 1];
      DepthIsSurplus(shorter);
      forall i | 0 <= i < |s| ensures s[i..][..|s| - i - 1] == shorter[i..] {}
      assert Balance(s[|s|..]) == 0;
      var i :| 0 <= i <= |shorter| && Balance(shorter[i..]) == DepthAfter(0, shorter);
      assert s[i..][..|s| - i - 1] == shorter[i..];
      if s[|s| - 1] == CLOSE && DepthAfter(0, shorter) == 0 {
        assert Balance(s[|s|..]) == DepthAfter(0, s);
      } else {
        assert Balance(s[i..]) == DepthAfter(0, s);
      }
    }
  }

  /** `o[i..j]` has more surplus openings than the limit allows. */
  ghost predicate Surplus(o: seq<int>, i: int, j: int) {
    0 <= i <= j <= |o| && Balance(o[i..j]) > 8
  }

  ghost predicate Exceeds(o: seq<int>) {
    exists i, j :: Surplus(o, i, j)
  }

  lemma PrefixSurplus(o: seq<int>, j: nat)
    requires j <= |o|
    ensures DepthAfter(0, o[..j]) > QUERY_NESTING_LIMIT <==> exists i :: Surplus(o, i, j)
  {
    DepthIsSurplus(o[..j]);
    var i :| 0 <= i <= j && Balance(o[..j][i..]) == DepthAfter(0, o[..j]);
    assert o[..j][i..] == o[i..j];
    if DepthAfter(0, o[..j]) > QUERY_NESTING_LIMIT {
      assert Surplus(o, i, j);
    }
    forall m | Surplus(o, m, j) ensures DepthAfter(0, o[..j]) > QUERY_NESTING_LIMIT {
      assert o[..j][m..] == o[m..j];
    }
  }

  /**
   * A query is refused exactly when some stretch of the text outside its literals has more than
   * eight surplus openings.
   */
  lemma NestingExact(s: seq<int>)
    ensures !Admits(s, 0) <==> Exceeds(Outside(s))
  {
    hide DepthAfter, Outside, Admits;
    var o := Outside(s);
    AdmitsIsDepth(s, 0);
    forall j | 0 <= j <= |o| ensures DepthAfter(0, o[..j]) > QUERY_NESTING_LIMIT <==> exists i :: Surplus(o, i, j) {
      PrefixSurplus(o, j);
    }
  }

  // ----- Bytes against characters -----

  function CodePoints(s: string): seq<int> {
    if s == "" then [] else [s[0] as int] + CodePoints(s[1..])
  }

  predicate High(a: seq<int>) {
    forall i :: 0 <= i < |a| ==> a[i] >= 0x80
  }

  lemma {:induction false} SkipHigh(a: seq<int>, rest: seq<int>, quote: int)
    requires High(a) && quote < 0x80
    ensures SkipLiteral(a + rest, quote) == SkipLiteral(rest, quote)
  {
    if a == [] {
      assert a + rest == rest;
    } else {
      assert (a + rest)[1..] == a[1..] + rest;
      SkipHigh(a[1..], rest, quote);
    }
  }

  lemma {:induction false} OutsideHigh(a: seq<int>, rest: seq<int>, depth: nat)
    requires High(a) && depth <= QUERY_NESTING_LIMIT
    ensures Admits(a + rest, depth) == Admits(rest, depth)
  {
    if a == [] {
      assert a + rest == rest;
    } else {
      assert (a + rest)[1..] == a[1..] + rest;
      OutsideHigh(a[1..], rest, depth);
    }
  }

  lemma EncodeFirst(s: string)
    requires s != ""
    ensures Encode(s) == EncodeChar(s[0]) + Encode(s[1..])
    ensures CodePoints(s) == [s[0] as int] + CodePoints(s[1..])
    ensures s[0] as int < 0x80 ==> Encode(s)[0] == s[0] as int && Encode(s)[1..] == Encode(s[1..])
    ensures s[0] as int >= 0x80 ==> High(EncodeChar(s[0]))
    ensures CodePoints(s)[1..] == CodePoints(s[1..])
  {}

  lemma EscapedSkips(s: string, quote: int)
    requires |s| > 1 && s[0] as int == BACKSLASH && IsQuote(quote)
    ensures SkipLiteral(CodePoints(s), quote) == SkipLiteral(CodePoints(s[2..]), quote)
    ensures SkipLiteral(Encode(s), quote) == SkipLiteral(Encode(s[2..]), quote)
  {
    EncodeFirst(s);
    EncodeFirst(s[1..]);
    assert s[1..][1..] == s[2..];
    assert CodePoints(s)[2..] == CodePoints(s[1..])[1..];
    var escaped: seq<int> := EncodeChar(s[1]);
    assert Encode(s)[2..] == escaped[1..] + Encode(s[2..]);
    SkipHigh(escaped[1..], Encode(s[2..]), quote);
  }

  /** In both readings a literal closes at the same character, a backslash before a wide one included. */
  lemma {:induction false} LiteralsAgree(s: string, quote: int) returns (after: string)
    requires IsQuote(quote)
    ensures |after| <= |s|
    ensures match SkipLiteral(CodePoints(s), quote)
            case None => SkipLiteral(Encode(s), quote).None?
            case Some(rest) =>
              |after| < |s| && rest == CodePoints(after)
              && SkipLiteral(Encode(s), quote) == Some(Encode(after))
    decreases |s|
  {
    after := s;
    if s != "" {
      var c := s[0] as int;
      EncodeFirst(s);
      if c == BACKSLASH {
        if |s| > 1 {
          EscapedSkips(s, quote);
          after := LiteralsAgree(s[2..], quote);
        } else {
          assert s[1..] == "";
        }
      } else if c == quote {
        after := s[1..];
      } else {
        if c >= 0x80 {
          SkipHigh(EncodeChar(s[0]), Encode(s[1..]), quote);
        }
        after := LiteralsAgree(s[1..], quote);
      }
    }
  }

  /** The byte pass and a character pass give one verdict on every text. */
  lemma {:induction false} BytesAgreeWithChars(s: string, depth: nat)
    requires depth <= QUERY_NESTING_LIMIT
    ensures Admits(Encode(s), depth) == Admits(CodePoints(s), depth)
    decreases |s|
  {
    if s != "" {
      var c, head: seq<int>, tail: seq<int> := s[0] as int, EncodeChar(s[0]), Encode(s[1..]);
      assert CodePoints(s)[1..] == CodePoints(s[1..]);
      assert Encode(s) == head + tail;
      if c >= 0x80 {
        OutsideHigh(head, tail, depth);
        BytesAgreeWithChars(s[1..], depth);
      } else {
        assert Encode(s)[1..] == tail;
        if IsQuote(c) {
          var after := LiteralsAgree(s[1..], c);
          if SkipLiteral(CodePoints(s[1..]), c).Some? {
            BytesAgreeWithChars(after, depth);
          }
        } else if Step(depth, c) <= QUERY_NESTING_LIMIT {
          BytesAgreeWithChars(s[1..], Step(depth, c));
        }
      }
    }
  }

  // ----- All three query budgets -----

  /** `.` `[` `(` `!` `&` `|`, wherever they stand. */
  predicate IsStructural(u: int) {
    u in {0x2E, 0x5B, 0x28, 0x21, 0x26, 0x7C}
  }

  function CountStructural(s: seq<int>): nat {
    if s == [] then 0 else (if IsStructural(s[0]) then 1 else 0) + CountStructural(s[1..])
  }

  /** How many characters of a text are one of these. */
  ghost function CountOf(s: string, chars: string): nat {
    if s == "" then 0 else (if s[0] in chars then 1 else 0) + CountOf(s[1..], chars)
  }

  lemma {:induction false} CountAppended(a: seq<int>, b: seq<int>)
    ensures CountStructural(a + b) == CountStructural(a) + CountStructural(b)
  {
    if a == [] {
      assert a + b == b;
    } else {
      assert (a + b)[1..] == a[1..] + b;
      CountAppended(a[1..], b);
    }
  }

  lemma CharStructural(c: char)
    ensures CountStructural(EncodeChar(c)) == if c in ".[(!&|" then 1 else 0
  {
    var b: seq<int> := EncodeChar(c);
    if c as int >= 0x80 {
      NoneStructural(b);
    } else {
      assert b[1..] == [];
    }
  }

  lemma {:induction false} NoneStructural(b: seq<int>)
    requires forall i :: 0 <= i < |b| ==> b[i] >= 0x80
    ensures CountStructural(b) == 0
  {
    if b != [] {
      NoneStructural(b[1..]);
    }
  }

  /** Counting bytes counts the characters `.`, `[`, `(`, `!`, `&` and `|`. */
  lemma {:induction false} StructuralExact(expression: string)
    ensures CountStructural(Encode(expression)) == CountOf(expression, ".[(!&|")
  {
    if expression != "" {
      hide EncodeChar, CountStructural;
      CharStructural(expression[0]);
      CountAppended(EncodeChar(expression[0]), Encode(expression[1..]));
      StructuralExact(expression[1..]);
    } else {
      assert CountStructural([]) == 0;
    }
  }

  ghost predicate NestsTooDeep(expression: string) {
    Exceeds(Outside(CodePoints(expression)))
  }

  lemma NestingOfText(expression: string)
    ensures Admits(Encode(expression), 0) <==> !NestsTooDeep(expression)
  {
    hide Admits, Outside, Exceeds;
    BytesAgreeWithChars(expression, 0);
    NestingExact(CodePoints(expression));
  }

  /** The byte, structural and nesting budgets, the first one broken being reported. */
  method AdmitExpression(expression: string) returns (r: Result<(), Resource>)
    ensures r == Err(QueryBytes) <==> |Encode(expression)| > 16_384
    ensures r == Err(QueryStructural) <==>
            |Encode(expression)| <= 16_384 && CountStructural(Encode(expression)) > 128
    ensures r.Ok? <==>
            && |Encode(expression)| <= 16_384
            && CountStructural(Encode(expression)) <= 128
            && !NestsTooDeep(expression)
  {
    hide CountStructural, Admits, NestsTooDeep;
    if |Encode(expression)| > QUERY_BYTE_LIMIT {
      return Err(QueryBytes);
    }
    var structural := CountStructural(Encode(expression));
    if structural > QUERY_STRUCTURAL_LIMIT {
      return Err(QueryStructural);
    }
    NestingOfText(expression);
    r := AdmitNesting(expression);
  }

  // ----- Context depth -----

  ghost function Size<S>(value: Json<S>): nat
    decreases value, |Children(value)| + 1
  {
    1 + SizeOf(value, |Children(value)|)
  }

  ghost function SizeOf<S>(value: Json<S>, n: nat): nat
    requires n <= |Children(value)|
    decreases value, n
  {
    if n == 0 then 0
    else
      ChildrenSmaller(value, n - 1);
      Size(Children(value)[n - 1]) + SizeOf(value, n - 1)
  }

  datatype Frame<S> = Frame(container: Json<S>, depth: nat)

  /** The container children, in order, one level down. */
  function ChildFrames<S>(children: seq<Json<S>>, depth: nat): seq<Frame<S>> {
    if children == [] then []
    else
      var last := children[|children| - 1];
      ChildFrames(children[..|children| - 1], depth) + (if IsContainer(last) then [Frame(last, depth + 1)] else [])
  }

  ghost function TotalSize<S>(pending: seq<Frame<S>>): nat {
    if pending == [] then 0 else Size(pending[0].container) + TotalSize(pending[1..])
  }

  lemma {:induction false} TotalSizeAppend<S>(p: seq<Frame<S>>, q: seq<Frame<S>>)
    ensures TotalSize(p + q) == TotalSize(p) + TotalSize(q)
  {
    if p == [] {
      assert p + q == q;
    } else {
      assert (p + q)[1..] == p[1..] + q;
      TotalSizeAppend(p[1..], q);
    }
  }

  lemma {:induction false} ChildFramesSize<S>(value: Json<S>, depth: nat, n: nat)
    requires n <= |Children(value)|
    ensures TotalSize(ChildFrames(Children(value)[..n], depth)) <= SizeOf(value, n)
  {
    if n > 0 {
      hide Size, Children;
      var children := Children(value);
      ChildFramesSize(value, depth, n - 1);
      LastChildFrame(children[..n], depth);
      hide ChildFrames;
      assert children[..n][..n - 1] == children[..n - 1];
    }
  }

  lemma LastChildFrame<S>(children: seq<Json<S>>, depth: nat)
    requires children != []
    ensures TotalSize(ChildFrames(children, depth))
            <= TotalSize(ChildFrames(children[..|children| - 1], depth)) + Size(children[|children| - 1])
  {
    hide Size, TotalSize;
    var last := children[|children| - 1];
    var frames := if IsContainer(last) then [Frame(last, depth + 1)] else [];
    OneFrame(last, depth + 1);
    TotalSizeAppend(ChildFrames(children[..|children| - 1], depth), frames);
  }

  lemma OneFrame<S>(value: Json<S>, depth: nat)
    ensures TotalSize([Frame(value, depth)]) == Size(value) && TotalSize<S>([]) == 0
  {
    assert [Frame(value, depth)][1..] == [];
  }

  ghost predicate TooDeep<S>(f: Frame<S>) {
    f.depth + Depth(f.container) > CONTEXT_DEPTH_LIMIT + 1
  }

  /** Some pending container reaches below the limit. */
  ghost predicate Over<S(!new)>(pending: seq<Frame<S>>) {
    exists f :: f in pending && TooDeep(f)
  }

  lemma {:induction false} ChildFramesAre<S>(children: seq<Json<S>>, depth: nat)
    ensures forall f :: f in ChildFrames(children, depth) <==>
            f.depth == depth + 1 && IsContainer(f.container)
            && f.container in children
  {
    if children != [] {
      var n := |children| - 1;
      ChildFramesAre(children[..n], depth);
      assert children == children[..n] + [children[n]];
    }
  }

  /** Replacing a frame within the limit by its children's frames changes nothing. */
  lemma Expand<S(!new)>(f: Frame<S>)
    requires IsContainer(f.container) && f.depth <= CONTEXT_DEPTH_LIMIT
    ensures TooDeep(f) <==> Over(ChildFrames(Children(f.container), f.depth))
  {
    var children := Children(f.container);
    var n := |children|;
    var frames := ChildFrames(children, f.depth);
    DeepestExact(f.container, n);
    ChildFramesAre(children, f.depth);
    hide ChildFrames, Deepest;
    if TooDeep(f) {
      var i :| 0 <= i < n && Depth(children[i]) == Deepest(f.container, n);
      var g := Frame(children[i], f.depth + 1);
      assert g.container in children && IsContainer(g.container);
      assert g in frames && TooDeep(g);
    }
    forall g | g in frames && TooDeep(g) ensures TooDeep(f) {
      var i :| 0 <= i < n && children[i] == g.container;
    }
  }

  ghost predicate Containers<S>(pending: seq<Frame<S>>) {
    forall i :: 0 <= i < |pending| ==> IsContainer(pending[i].container)
  }

  /** The worklist once its entry `i` has been popped and, within the limit, expanded. */
  function PopAt<S>(pending: seq<Frame<S>>, i: nat): seq<Frame<S>>
    requires i < |pending|
  {
    pending[..i] + pending[i + 1..] + ChildFrames(Children(pending[i].container), pending[i].depth)
  }

  /** Popping any entry keeps the verdict and shrinks the work left. */
  lemma PopKeepsVerdict<S(!new)>(pending: seq<Frame<S>>, i: nat)
    requires i < |pending| && Containers(pending)
    ensures pending[i].depth > CONTEXT_DEPTH_LIMIT ==> Over(pending)
    ensures pending[i].depth <= CONTEXT_DEPTH_LIMIT ==> (Over(pending) <==> Over(PopAt(pending, i)))
    ensures Containers(PopAt(pending, i)) && TotalSize(PopAt(pending, i)) < TotalSize(pending)
  {
    hide Depth, Size, ChildFrames, TotalSize, Children, TooDeep, Over;
    PopShrinks(pending, i);
    PopContainers(pending, i);
    if pending[i].depth <= CONTEXT_DEPTH_LIMIT {
      PopKeepsOver(pending, i);
    } else {
      BeyondLimit(pending[i]);
      OverNow(pending, i);
    }
  }

  lemma OverNow<S(!new)>(pending: seq<Frame<S>>, i: nat)
    requires i < |pending| && TooDeep(pending[i])
    ensures Over(pending)
  {
    hide TooDeep;
    assert pending[i] in pending;
  }

  lemma PopContainers<S(!new)>(pending: seq<Frame<S>>, i: nat)
    requires i < |pending| && Containers(pending)
    ensures Containers(PopAt(pending, i))
  {
    hide ChildFrames, Children;
    var f := pending[i];
    ChildFramesAre(Children(f.container), f.depth);
    var frames := ChildFrames(Children(f.container), f.depth);
    assert forall k :: 0 <= k < |frames| ==> frames[k] in frames;
  }

  lemma PopKeepsOver<S(!new)>(pending: seq<Frame<S>>, i: nat)
    requires i < |pending| && Containers(pending) && pending[i].depth <= CONTEXT_DEPTH_LIMIT
    ensures Over(pending) <==> Over(PopAt(pending, i))
  {
    hide Depth, Size, ChildFrames, TotalSize, Children, TooDeep;
    var f, others := pending[i], pending[..i] + pending[i + 1..];
    var frames := ChildFrames(Children(f.container), f.depth);
    Expand(f);
    Removal(pending, i);
    assert forall g :: g in PopAt(pending, i) <==> g in others || g in frames;
  }

  lemma BeyondLimit<S>(f: Frame<S>)
    requires IsContainer(f.container) && f.depth > CONTEXT_DEPTH_LIMIT
    ensures TooDeep(f)
  {}

  lemma Removal<T>(s: seq<T>, i: nat)
    requires i < |s|
    ensures forall x :: x in s <==> x in s[..i] + s[i + 1..] || x == s[i]
  {
    assert s == s[..i] + ([s[i]] + s[i + 1..]);
  }

  lemma PopShrinks<S>(pending: seq<Frame<S>>, i: nat)
    requires i < |pending|
    ensures TotalSize(PopAt(pending, i)) < TotalSize(pending)
  {
    hide Size, Children, ChildFrames, TotalSize;
    var f, before, after := pending[i], pending[..i], pending[i + 1..];
    assert pending == before + ([f] + after);
    TotalSizeAppend(before, [f] + after);
    TotalSizeAppend([f], after);
    OneFrame(f.container, f.depth);
    TotalSizeAppend(before, after);
    TotalSizeAppend(before + after, ChildFrames(Children(f.container), f.depth));
    ChildFramesBelow(f);
  }

  lemma ChildFramesBelow<S>(f: Frame<S>)
    ensures TotalSize(ChildFrames(Children(f.container), f.depth)) < Size(f.container)
  {
    hide Size, SizeOf, Children, ChildFrames, TotalSize;
    var children := Children(f.container);
    assert children[..|children|] == children;
    ChildFramesSize(f.container, f.depth, |children|);
    SizeIs(f.container);
  }

  lemma SizeIs<S>(value: Json<S>)
    ensures Size(value) == 1 + SizeOf(value, |Children(value)|)
  {}

  /** The walk with entries popped in the order `pick` chooses. */
  ghost function Walk<S>(pending: seq<Frame<S>>, pick: seq<Frame<S>> -> nat, fuel: nat): Option<bool>
    decreases fuel
  {
    if pending == [] then Some(true)
    else if fuel == 0 then None
    else
      var i := pick(pending) % |pending|;
      if pending[i].depth > CONTEXT_DEPTH_LIMIT then Some(false) else Walk(PopAt(pending, i), pick, fuel - 1)
  }

  /** Whatever order is chosen, the walk ends within the size of the context and gives the same answer. */
  lemma {:induction false} AnyOrder<S(!new)>(pending: seq<Frame<S>>, pick: seq<Frame<S>> -> nat, fuel: nat)
    requires Containers(pending) && fuel >= TotalSize(pending)
    ensures Walk(pending, pick, fuel) == Some(!Over(pending))
    decreases fuel
  {
    hide Over, Containers, PopAt, TotalSize;
    if pending == [] {
      NothingOver(pending);
    } else {
      var i := pick(pending) % |pending|;
      PopKeepsVerdict(pending, i);
      if pending[i].depth <= CONTEXT_DEPTH_LIMIT {
        AnyOrder(PopAt(pending, i), pick, fuel - 1);
      }
    }
  }

  lemma NothingOver<S(!new)>(pending: seq<Frame<S>>)
    ensures pending == [] ==> !Over(pending)
  {}

  /** Accepts exactly the contexts that nest at most 128 containers. */
  method AdmitContext<S(!new)>(context: Json<S>) returns (r: Result<(), Resource>)
    ensures r == if Depth(context) <= 128 then Ok(()) else Err(ContextDepth)
  {
    hide Depth, Size, ChildFrames, TotalSize;
    var pending: seq<Frame<S>> := [];
    StartVerdict(context);
    if IsContainer(context) {
      pending := pending + [Frame(context, 1)];
      assert pending == [Frame(context, 1)];
    }
    while pending != []
      invariant Containers(pending)
      invariant Over(pending) <==> Depth(context) > CONTEXT_DEPTH_LIMIT
      decreases TotalSize(pending)
    {
      var last := |pending| - 1;
      var Frame(container, depth) := pending[last];
      PopKeepsVerdict(pending, last);
      if depth > CONTEXT_DEPTH_LIMIT {
        return Err(ContextDepth);
      }
      assert PopAt(pending, last) == pending[..last] + ChildFrames(Children(container), depth);
      pending := pending[..last];
      match container {
        case Array(items) => pending := pending + ChildFrames(items, depth);
        case Object(members) => pending := pending + ChildFrames(Values(members), depth);
        case _ => pending := pending + ChildFrames([], depth);
      }
    }
    return Ok(());
  }

  lemma StartVerdict<S(!new)>(context: Json<S>)
    ensures IsContainer(context) ==> (Over([Frame(context, 1)]) <==> Depth(context) > CONTEXT_DEPTH_LIMIT)
    ensures !IsContainer(context) ==> Depth(context) == 0
  {
    assert IsContainer(context) ==> Frame(context, 1) in [Frame(context, 1)];
  }
}
