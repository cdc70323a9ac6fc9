/**
 * Rendering of literal-or-expression text, and discovery of the step outputs it reads. The two
 * are written apart in the program; here each is tied to the other.
 */
module Interpolation {
  import opened Options
  import opened Utf8
  import opened JsonValues
  import opened RuntimeExpressions
  import opened ExpressionStrings

  // ----- Rendering -----

  function Show(lib: Library, value: Value): Bytes {
    match value
    case String(text) => text
    case other => lib.show(other)
  }

  predicate InOrder(input: Bytes, cursor: nat, items: seq<Embedded>)
    decreases |items|
  {
    if items == [] then cursor <= |input|
    else
      cursor <= items[0].full.start <= items[0].full.end <= |input|
      && InOrder(input, items[0].full.end, items[1..])
  }

  /** The input with each item replaced by its text, and every other byte kept in place. */
  function Substitute(input: Bytes, cursor: nat, items: seq<Embedded>, texts: seq<Bytes>): Bytes
    requires InOrder(input, cursor, items) && |texts| == |items|
    decreases |items|
  {
    if items == [] then input[cursor..]
    else input[cursor..items[0].full.start] + texts[0] + Substitute(input, items[0].full.end, items[1..], texts[1..])
  }

  predicate AllCanonical(items: seq<Embedded>) {
    forall i :: 0 <= i < |items| ==> Canonical(items[i].expression)
  }

  function Rendered(lib: Library, items: seq<Embedded>, c: Context): (texts: seq<Bytes>)
    requires AllCanonical(items)
    ensures |texts| == |items|
  {
    seq(|items|, i requires 0 <= i < |items| => Show(lib, IntoPublic(ResolveParsed(lib, items[i].expression, c)).0))
  }

  function Warnings(lib: Library, items: seq<Embedded>, c: Context): seq<Warning>
    requires AllCanonical(items)
  {
    if items == [] then []
    else IntoPublic(ResolveParsed(lib, items[0].expression, c)).1 + Warnings(lib, items[1..], c)
  }

  lemma {:induction false} ScanInOrder(lib: Library, input: Bytes, from: nat)
    requires from <= |input| && Lawful(lib)
    ensures Scan(lib, input, from).Ok? ==>
            InOrder(input, from, Scan(lib, input, from).value)
            && AllCanonical(Scan(lib, input, from).value)
    decreases |input| - from
  {
    hide Lawful, Canonical;
    match NextItem(lib, input, from) {
      case Some(Ok(embedded)) =>
        NextItemFits(lib, input, from);
        hide NextItem;
        ScanInOrder(lib, input, embedded.full.end);
      case _ =>
    }
  }

  lemma NextItemFits(lib: Library, input: Bytes, from: nat)
    requires from <= |input| && Lawful(lib) && NextItem(lib, input, from).Some? && NextItem(lib, input, from).value.Ok?
    ensures var item := NextItem(lib, input, from).value.value;
            from <= item.full.start <= item.full.end <= |input| && Canonical(item.expression)
  {
    hide Canonical;
  }

  function ResolveValue(lib: Library, input: Bytes, c: Context): (Value, seq<Warning>)
    requires Lawful(lib)
  {
    match Classify(lib, input)
    case Ok(Whole(expression)) => IntoPublic(ResolveParsed(lib, expression, c))
    case Ok(Template(items)) =>
      ScanInOrder(lib, input, 0);
      (String(Substitute(input, 0, items, Rendered(lib, items, c))), Warnings(lib, items, c))
    case Ok(Literal(text)) => (String(text), [])
    case Err(error) => (String(input), [Warning(input, BadTemplate(error.syntax, error.range))])
  }

  /** The rendering loop, one span at a time. */
  method RenderTemplate(lib: Library, input: Bytes, items: seq<Embedded>, c: Context)
    returns (rendered: Bytes, warnings: seq<Warning>)
    requires InOrder(input, 0, items) && AllCanonical(items)
    ensures rendered == Substitute(input, 0, items, Rendered(lib, items, c)) && warnings == Warnings(lib, items, c)
  {
    hide ResolveParsed, Show, InOrder, Substitute, Warnings, Rendered, AllCanonical;
    ghost var texts := Rendered(lib, items, c);
    var cursor: nat := 0;
    rendered, warnings := [], [];
    WholeList(items, texts);
    for n := 0 to |items|
      invariant InOrder(input, cursor, items[n..])
      invariant Substitute(input, 0, items, texts) == rendered + Substitute(input, cursor, items[n..], texts[n..])
      invariant AllCanonical(items[n..])
      invariant Warnings(lib, items, c) == warnings + Warnings(lib, items[n..], c)
    {
      var embedded := items[n];
      RenderStep(lib, input, items, texts, c, cursor, n, rendered);
      rendered := rendered + input[cursor..embedded.full.start];
      var (resolved, more) := IntoPublic(ResolveParsed(lib, embedded.expression, c));
      rendered := rendered + Show(lib, resolved);
      warnings := warnings + more;
      cursor := embedded.full.end;
    }
    NothingLeft(lib, input, cursor, c);
    rendered := rendered + input[cursor..];
  }

  lemma WholeList(items: seq<Embedded>, texts: seq<Bytes>)
    ensures items[0..] == items && texts[0..] == texts
  {}

  lemma NothingLeft(lib: Library, input: Bytes, cursor: nat, c: Context)
    requires InOrder(input, cursor, [])
    ensures cursor <= |input| && Substitute(input, cursor, [], []) == input[cursor..] && Warnings(lib, [], c) == []
  {}

  /** One turn of the rendering loop. */
  lemma RenderStep(lib: Library, input: Bytes, items: seq<Embedded>, texts: seq<Bytes>, c: Context, cursor: nat,
                   n: nat, rendered: Bytes)
    requires n < |items| == |texts| && InOrder(input, cursor, items[n..]) && AllCanonical(items)
    requires texts == Rendered(lib, items, c)
    ensures cursor <= items[n].full.start <= items[n].full.end <= |input| && Canonical(items[n].expression)
    ensures InOrder(input, items[n].full.end, items[n + 1..]) && AllCanonical(items[n + 1..])
    ensures var published := IntoPublic(ResolveParsed(lib, items[n].expression, c));
            && rendered + Substitute(input, cursor, items[n..], texts[n..])
               == rendered + input[cursor..items[n].full.start] + Show(lib, published.0)
                  + Substitute(input, items[n].full.end, items[n + 1..], texts[n + 1..])
            && AllCanonical(items[n..])
            && Warnings(lib, items[n..], c) == published.1 + Warnings(lib, items[n + 1..], c)
  {
    hide ResolveParsed, Show, Canonical;
    assert items[n..][1..] == items[n + 1..] && texts[n..][1..] == texts[n + 1..];
    assert items[n..][0] == items[n] && texts[n..][0] == texts[n];
  }

  method Render(lib: Library, input: Bytes, c: Context) returns (value: Value, warnings: seq<Warning>)
    requires Lawful(lib)
    ensures (value, warnings) == ResolveValue(lib, input, c)
  {
    hide ResolveParsed, Scan;
    var syntax := ClassifyValueString(lib, input);
    match syntax {
      case Ok(Whole(expression)) =>
        var published := IntoPublic(ResolveParsed(lib, expression, c));
        return published.0, published.1;
      case Ok(Template(items)) =>
        ScanInOrder(lib, input, 0);
        var rendered, found := RenderTemplate(lib, input, items, c);
        return String(rendered), found;
      case Ok(Literal(text)) =>
        return String(text), [];
      case Err(error) =>
        return String(input), [Warning(input, BadTemplate(error.syntax, error.range))];
    }
  }

  function SourceTexts(input: Bytes, cursor: nat, items: seq<Embedded>): (texts: seq<Bytes>)
    requires InOrder(input, cursor, items)
    ensures |texts| == |items|
    decreases |items|
  {
    if items == [] then [] else [Slice(input, items[0].full)] + SourceTexts(input, items[0].full.end, items[1..])
  }

  /** Putting each span's own text back gives back the input: no literal byte moves or changes. */
  lemma {:induction false} SubstituteSelf(input: Bytes, cursor: nat, items: seq<Embedded>)
    requires InOrder(input, cursor, items)
    ensures Substitute(input, cursor, items, SourceTexts(input, cursor, items)) == input[cursor..]
    decreases |items|
  {
    if items != [] {
      SubstituteSelf(input, items[0].full.end, items[1..]);
    }
  }

  /** `evaluate_with_diagnostics`: a field that must be one complete expression. */
  function Evaluate(lib: Library, input: Bytes, c: Context): (Value, seq<Warning>)
    requires Lawful(lib)
  {
    match lib.parse(input)
    case Ok(expression) => IntoPublic(ResolveParsed(lib, expression, c))
    case Err(range) => (Null, [Warning(input, BadExpression(range))])
  }

  // ----- What a text is rendered as -----

  /** The value an expression stands for: what it names, and null when that is missing. */
  ghost function PublicValue(lib: Library, e: Expression, c: Context): Value
    requires Canonical(e)
  {
    if ValueNamed(lib, e, c).Some? then ValueNamed(lib, e, c).value else Null
  }

  ghost function NoticesOf(lib: Library, e: Expression, c: Context): seq<Warning>
    requires Canonical(e)
  {
    if ValueNamed(lib, e, c).None? && Reports(e.namespace) then [Warning(e.raw, NoticeOf(e, c))] else []
  }

  lemma Published(lib: Library, e: Expression, c: Context)
    requires Canonical(e)
    ensures IntoPublic(ResolveParsed(lib, e, c)) == (PublicValue(lib, e, c), NoticesOf(lib, e, c))
  {
    hide ResolveParsed, ValueNamed, NoticeOf;
    ResolvedExactly(lib, e, c);
  }

  /** One whole expression keeps its value, of whatever type, in either field mode. */
  lemma WholeRendered(lib: Library, input: Bytes, c: Context)
    requires Lawful(lib) && lib.parse(input).Ok?
    ensures ResolveValue(lib, input, c) == Evaluate(lib, input, c)
    ensures var e := lib.parse(input).value;
            ResolveValue(lib, input, c) == (PublicValue(lib, e, c), NoticesOf(lib, e, c))
  {
    hide Scan, ResolveParsed, PublicValue, NoticesOf;
    Published(lib, lib.parse(input).value, c);
  }

  ghost predicate AllParse(lib: Library, input: Bytes, spans: seq<Range>) {
    forall i :: 0 <= i < |spans| ==> Parses(lib, input, spans[i])
  }

  /** The text that replaces a span: a string value as it is, any other value as JSON. */
  ghost function SpanText(lib: Library, input: Bytes, r: Range, c: Context): Bytes
    requires Lawful(lib) && Parses(lib, input, r)
  {
    var value := PublicValue(lib, lib.parse(Inner(input, r)).value, c);
    if value.String? then value.text else lib.show(value)
  }

  lemma FirstSpan(lib: Library, input: Bytes, from: nat, spans: seq<Range>)
    requires IsDecomposition(input, from, spans, None) && AllParse(lib, input, spans) && spans != []
    ensures from <= spans[0].start <= spans[0].end <= |input| && Parses(lib, input, spans[0])
    ensures IsDecomposition(input, spans[0].end, spans[1..], None) && AllParse(lib, input, spans[1..])
  {
    hide IsDecomposition, Parses;
    TailDecomposition(input, from, spans, None);
  }

  lemma NoSpan(input: Bytes, from: nat)
    requires IsDecomposition(input, from, [], None)
    ensures from <= |input|
  {}

  /** The stretches between the spans as they are, and each span's text in its place. */
  ghost function Filled(lib: Library, input: Bytes, from: nat, spans: seq<Range>, c: Context): Bytes
    requires Lawful(lib) && IsDecomposition(input, from, spans, None) && AllParse(lib, input, spans)
    decreases |spans|
  {
    if spans == [] then
      NoSpan(input, from);
      input[from..]
    else
      FirstSpan(lib, input, from, spans);
      var rest := Filled(lib, input, spans[0].end, spans[1..], c);
      input[from..spans[0].start] + SpanText(lib, input, spans[0], c) + rest
  }

  ghost function SpanNotices(lib: Library, input: Bytes, spans: seq<Range>, c: Context): seq<Warning>
    requires Lawful(lib) && AllParse(lib, input, spans)
  {
    if spans == [] then []
    else
      assert Parses(lib, input, spans[0]);
      NoticesOf(lib, lib.parse(Inner(input, spans[0])).value, c) + SpanNotices(lib, input, spans[1..], c)
  }

  lemma MatchedParts(lib: Library, input: Bytes, spans: seq<Range>, items: seq<Embedded>)
    requires Lawful(lib) && Matches(lib, input, spans, items)
    ensures AllParse(lib, input, spans) && AllCanonical(items)
    ensures items != [] ==>
              && Matches(lib, input, spans[1..], items[1..])
              && items[0].full == spans[0] && items[0].expression == lib.parse(Inner(input, spans[0])).value
  {
    hide Canonical;
    assert forall i :: 0 <= i < |items| ==> items[i].expression == lib.parse(Inner(input, spans[i])).value;
  }

  lemma ShownText(lib: Library, input: Bytes, r: Range, c: Context)
    requires Lawful(lib) && Parses(lib, input, r)
    ensures Show(lib, PublicValue(lib, lib.parse(Inner(input, r)).value, c)) == SpanText(lib, input, r, c)
  {
    hide PublicValue;
  }

  /** The rendering loop's result, read off the decomposition. */
  lemma {:induction false} SubstituteFills(lib: Library, input: Bytes, from: nat, spans: seq<Range>,
                                           items: seq<Embedded>, c: Context)
    requires Lawful(lib) && IsDecomposition(input, from, spans, None) && Matches(lib, input, spans, items)
    ensures AllParse(lib, input, spans) && AllCanonical(items) && InOrder(input, from, items)
    ensures Substitute(input, from, items, Rendered(lib, items, c)) == Filled(lib, input, from, spans, c)
    ensures Warnings(lib, items, c) == SpanNotices(lib, input, spans, c)
    decreases |spans|
  {
    hide Lawful, Matches, AllParse, AllCanonical, IsDecomposition, Rendered, ResolveParsed, Show, PublicValue, SpanText;
    MatchedParts(lib, input, spans, items);
    MatchedLength(lib, input, spans, items);
    if spans == [] {
      NoSpan(input, from);
    } else {
      var e := items[0].expression;
      FirstSpan(lib, input, from, spans);
      SubstituteFills(lib, input, spans[0].end, spans[1..], items[1..], c);
      RenderedFirst(lib, items, c);
      Published(lib, e, c);
      ShownText(lib, input, spans[0], c);
      assert Rendered(lib, items, c)[1..] == Rendered(lib, items[1..], c);
    }
  }

  lemma MatchedLength(lib: Library, input: Bytes, spans: seq<Range>, items: seq<Embedded>)
    requires Matches(lib, input, spans, items)
    ensures |items| == |spans|
  {}

  /**
   * A text that is not one whole expression: as it is and without a warning when nothing in it is reserved;
   * as it is, with the first violation as the one warning, when it is malformed; and otherwise filled in.
   */
  lemma TextRendered(lib: Library, input: Bytes, c: Context, spans: seq<Range>, tail: Option<nat>)
    requires Lawful(lib) && lib.parse(input).Err? && IsDecomposition(input, 0, spans, tail)
    ensures spans == [] && tail.None? ==> ResolveValue(lib, input, c) == (String(input), [])
    ensures tail.None? && AllParse(lib, input, spans) ==>
              ResolveValue(lib, input, c) ==
                  (String(Filled(lib, input, 0, spans, c)), SpanNotices(lib, input, spans, c))
    ensures !(tail.None? && AllParse(lib, input, spans)) ==>
              exists error :: IsFirstError(lib, input, spans, tail, error)
                && ResolveValue(lib, input, c) ==
                   (String(input), [Warning(input, BadTemplate(error.syntax, error.range))])
  {
    hide Lawful, Scan, Matches, IsDecomposition, IsFirstError, Parses, Rendered, Warnings, Substitute, InOrder;
    ScanExact(lib, input, 0, spans, tail);
    if Scan(lib, input, 0).Ok? {
      MatchedLength(lib, input, spans, Scan(lib, input, 0).value);
      SubstituteFills(lib, input, 0, spans, Scan(lib, input, 0).value, c);
      assert spans == [] ==> Filled(lib, input, 0, spans, c) == input;
    }
  }

  // ----- Reference discovery -----

  datatype Mode = LiteralOrExpression | RequiredExpression | EmbeddedCondition

  datatype StepOutput = StepOutput(stepId: Bytes, outputName: Bytes)

  datatype ReferenceError = NotAnExpression(range: Range) | NotATemplate(error: ScanError)

  function LocalReference(e: Expression): seq<StepOutput> {
    match e.form
    case Step(id, name, _) => [StepOutput(id, name)]
    case _ => []
  }

  function ItemReferences(items: seq<Embedded>): seq<StepOutput> {
    if items == [] then [] else LocalReference(items[0].expression) + ItemReferences(items[1..])
  }

  function References(lib: Library, input: Bytes, mode: Mode): Result<seq<StepOutput>, ReferenceError> {
    match mode
    case LiteralOrExpression =>
      (match Classify(lib, input)
       case Err(error) => Err(NotATemplate(error))
       case Ok(Literal(_)) => Ok([])
       case Ok(Whole(expression)) => Ok(LocalReference(expression))
       case Ok(Template(items)) => Ok(ItemReferences(items)))
    case RequiredExpression =>
      (match lib.parse(input)
       case Ok(expression) => Ok(LocalReference(expression))
       case Err(range) => Err(NotAnExpression(range)))
    case EmbeddedCondition =>
      (match Scan(lib, input, 0)
       case Err(error) => Err(NotATemplate(error))
       case Ok(items) => Ok(ItemReferences(items)))
  }

  lemma {:induction false} ItemReferencesAppend(items: seq<Embedded>, item: Embedded)
    ensures ItemReferences(items + [item]) == ItemReferences(items) + LocalReference(item.expression)
  {
    if items == [] {
      assert [] + [item] == [item];
    } else {
      assert (items + [item])[1..] == items[1..] + [item];
      ItemReferencesAppend(items[1..], item);
    }
  }

  method LocalStepOutputReferences(lib: Library, input: Bytes, mode: Mode)
    returns (r: Result<seq<StepOutput>, ReferenceError>)
    ensures r == References(lib, input, mode)
  {
    hide Scan, NextItem, LocalReference;
    var references: seq<StepOutput> := [];
    match mode {
      case LiteralOrExpression =>
        var syntax := ClassifyValueString(lib, input);
        match syntax {
          case Err(error) => return Err(NotATemplate(error));
          case Ok(Literal(_)) =>
          case Ok(Whole(expression)) =>
            references := references + LocalReference(expression);
            assert references == LocalReference(expression);
          case Ok(Template(items)) =>
            for n := 0 to |items|
              invariant references == ItemReferences(items[..n])
            {
              ItemReferencesAppend(items[..n], items[n]);
              assert items[..n] + [items[n]] == items[..n + 1];
              references := references + LocalReference(items[n].expression);
            }
            assert items[..|items|] == items;
        }
      case RequiredExpression =>
        match lib.parse(input) {
          case Err(range) => return Err(NotAnExpression(range));
          case Ok(expression) =>
            references := references + LocalReference(expression);
            assert references == LocalReference(expression);
        }
      case EmbeddedCondition =>
        var scanner := new Scanner(input);
        ghost var items: seq<Embedded> := [];
        var item := scanner.Next(lib);
        CollectFirst(lib, input, 0);
        while item.Some? && item.value.Ok?
          invariant scanner.Valid() && scanner.input == input
          invariant item.Some? && item.value.Ok? ==>
                      scanner.cursor == Some(item.value.value.full.end) && item.value.value.full.end <= |input|
          invariant Scan(lib, input, 0) == Collect(lib, input, items, item)
          invariant references == ItemReferences(items)
          decreases if item.Some? && item.value.Ok? then |input| - item.value.value.full.end else -1
        {
          CollectNext(lib, input, items, item.value.value);
          ItemReferencesAppend(items, item.value.value);
          items := items + [item.value.value];
          references := references + LocalReference(item.value.value.expression);
          item := scanner.Next(lib);
        }
        if item.Some? {
          return Err(NotATemplate(item.value.error));
        }
    }
    return Ok(references);
  }

  // ----- What discovery reports of a condition -----

  /** The references in the decomposition's spans, each span's inner text parsed by itself. */
  ghost function SpanReferences(lib: Library, input: Bytes, spans: seq<Range>): seq<StepOutput>
    requires forall i :: 0 <= i < |spans| ==> Parses(lib, input, spans[i])
  {
    if spans == [] then []
    else
      assert Parses(lib, input, spans[0]);
      LocalReference(lib.parse(Inner(input, spans[0])).value) + SpanReferences(lib, input, spans[1..])
  }

  lemma {:induction false} MatchedReferences(lib: Library, input: Bytes, spans: seq<Range>, items: seq<Embedded>)
    requires Matches(lib, input, spans, items)
    ensures forall i :: 0 <= i < |spans| ==> Parses(lib, input, spans[i])
    ensures ItemReferences(items) == SpanReferences(lib, input, spans)
  {
    if items != [] {
      hide Parses, LocalReference;
      assert Matches(lib, input, spans[1..], items[1..]);
      MatchedReferences(lib, input, spans[1..], items[1..]);
    }
  }

  /**
   * Of a condition with embedded expressions: the references in all its spans, in order and repeated as they
   * are, or else the first violation of the decomposition, and then no reference at all.
   */
  lemma EmbeddedExact(lib: Library, input: Bytes, spans: seq<Range>, tail: Option<nat>)
    requires IsDecomposition(input, 0, spans, tail)
    ensures References(lib, input, EmbeddedCondition).Ok?
            <==> tail.None? && forall i :: 0 <= i < |spans| ==> Parses(lib, input, spans[i])
    ensures var r := References(lib, input, EmbeddedCondition);
            && (r.Ok? ==> r.value == SpanReferences(lib, input, spans))
            && (r.Err? ==> r.error.NotATemplate? && IsFirstError(lib, input, spans, tail, r.error.error))
  {
    hide Scan, IsDecomposition, IsFirstError, Parses, Matches;
    ScanExact(lib, input, 0, spans, tail);
    if Scan(lib, input, 0).Ok? {
      MatchedReferences(lib, input, spans, Scan(lib, input, 0).value);
    }
  }

  /** A field that may be one complete expression, and is, reports what a field that must be one does. */
  lemma WholeReferences(lib: Library, input: Bytes)
    requires lib.parse(input).Ok?
    ensures References(lib, input, LiteralOrExpression) == References(lib, input, RequiredExpression)
    ensures References(lib, input, LiteralOrExpression) == Ok(LocalReference(lib.parse(input).value))
  {
    hide Scan;
  }

  /** A field that may be one complete expression, and is not, reports what a condition of that text does. */
  lemma LiteralLikeCondition(lib: Library, input: Bytes)
    requires lib.parse(input).Err?
    ensures References(lib, input, LiteralOrExpression) == References(lib, input, EmbeddedCondition)
  {
    hide Scan;
  }

  // ----- Rendering reads step outputs only through the reported references -----

  predicate AgreeOffSteps(c: Context, d: Context) {
    c.(steps := map[]) == d.(steps := map[])
  }

  /** Both contexts lack the step, or both have it and hold the same at this output. */
  predicate AgreeAt(c: Context, d: Context, r: StepOutput) {
    if r.stepId in c.steps && r.stepId in d.steps
    then Get(c.steps[r.stepId], r.outputName) == Get(d.steps[r.stepId], r.outputName)
    else r.stepId !in c.steps && r.stepId !in d.steps
  }

  predicate AgreeOn(c: Context, d: Context, references: seq<StepOutput>) {
    forall i :: 0 <= i < |references| ==> AgreeAt(c, d, references[i])
  }

  lemma ExpressionNoninterference(lib: Library, e: Expression, c: Context, d: Context)
    requires Canonical(e) && AgreeOffSteps(c, d) && AgreeOn(c, d, LocalReference(e))
    ensures ResolveParsed(lib, e, c) == ResolveParsed(lib, e, d)
  {
    if e.namespace.Steps? {
      assert AgreeAt(c, d, LocalReference(e)[0]);
    } else {
      assert c == d.(steps := c.steps);
    }
  }

  lemma RenderedFirst(lib: Library, items: seq<Embedded>, c: Context)
    requires AllCanonical(items) && items != []
    ensures AllCanonical(items[1..]) && Canonical(items[0].expression)
    ensures Rendered(lib, items, c) ==
            [Show(lib, IntoPublic(ResolveParsed(lib, items[0].expression, c)).0)] + Rendered(lib, items[1..], c)
  {
    hide ResolveParsed, Show, Canonical;
  }

  lemma AgreeOnParts(c: Context, d: Context, a: seq<StepOutput>, b: seq<StepOutput>)
    requires AgreeOn(c, d, a + b)
    ensures AgreeOn(c, d, a) && AgreeOn(c, d, b)
  {
    hide AgreeAt;
    assert forall i :: 0 <= i < |a| ==> a[i] == (a + b)[i];
    assert forall i :: 0 <= i < |b| ==> b[i] == (a + b)[|a| + i];
  }

  lemma {:induction false} ItemsNoninterference(lib: Library, items: seq<Embedded>, c: Context, d: Context)
    requires AllCanonical(items) && AgreeOffSteps(c, d) && AgreeOn(c, d, ItemReferences(items))
    ensures Rendered(lib, items, c) == Rendered(lib, items, d) && Warnings(lib, items, c) == Warnings(lib, items, d)
  {
    hide ResolveParsed, Show, Canonical, LocalReference, AgreeOffSteps, AgreeOn, Rendered;
    if items != [] {
      AgreeOnParts(c, d, LocalReference(items[0].expression), ItemReferences(items[1..]));
      ExpressionNoninterference(lib, items[0].expression, c, d);
      RenderedFirst(lib, items, c);
      RenderedFirst(lib, items, d);
      ItemsNoninterference(lib, items[1..], c, d);
    }
  }

  /**
   * Discovery is sound: contexts that agree off the step outputs, and at every reported reference,
   * render every text alike, warnings included; a text that reports an error reads no context at all.
   */
  lemma Noninterference(lib: Library, input: Bytes, c: Context, d: Context)
    requires Lawful(lib) && AgreeOffSteps(c, d)
    requires var r := References(lib, input, LiteralOrExpression); r.Ok? ==> AgreeOn(c, d, r.value)
    ensures ResolveValue(lib, input, c) == ResolveValue(lib, input, d)
  {
    match Classify(lib, input) {
      case Ok(Whole(expression)) => ExpressionNoninterference(lib, expression, c, d);
      case Ok(Template(items)) =>
        ScanInOrder(lib, input, 0);
        ItemsNoninterference(lib, items, c, d);
      case _ =>
    }
  }

  /** The same for a field that must be one complete expression. */
  lemma RequiredNoninterference(lib: Library, input: Bytes, c: Context, d: Context)
    requires Lawful(lib) && AgreeOffSteps(c, d)
    requires var r := References(lib, input, RequiredExpression); r.Ok? ==> AgreeOn(c, d, r.value)
    ensures Evaluate(lib, input, c) == Evaluate(lib, input, d)
  {
    match lib.parse(input) {
      case Ok(expression) => ExpressionNoninterference(lib, expression, c, d);
      case Err(_) =>
    }
  }

  // ----- And every reported reference is read -----

  /** The steps context in which only step `r.stepId` has run, with or without that output. */
  function OnlyStep(c: Context, r: StepOutput, present: bool): Context {
    c.(steps := map[r.stepId := if present then map[r.outputName := Null] else map[]])
  }

  /** The notice of a missing output comes from a reference to it, exactly when its step lacks it. */
  lemma OutputNotice(lib: Library, e: Expression, c: Context, r: StepOutput)
    requires Canonical(e) && r.stepId in c.steps
    ensures (exists w :: w in ResolveParsed(lib, e, c).warnings && w.message == OutputNotInStep(r.outputName, r.stepId))
            <==> r in LocalReference(e) && r.outputName !in c.steps[r.stepId]
  {
    hide GetHeader, EqIgnoreCase, Encode, SelectPointer, SelectFrom;
    var warnings := ResolveParsed(lib, e, c).warnings;
    if r in LocalReference(e) && r.outputName !in c.steps[r.stepId] {
      assert warnings[0].message == OutputNotInStep(r.outputName, r.stepId);
    }
  }

  lemma {:induction false} OutputNotices(lib: Library, items: seq<Embedded>, c: Context, r: StepOutput)
    requires AllCanonical(items) && r.stepId in c.steps
    ensures (exists w :: w in Warnings(lib, items, c) && w.message == OutputNotInStep(r.outputName, r.stepId))
            <==> r in ItemReferences(items) && r.outputName !in c.steps[r.stepId]
  {
    if items != [] {
      hide ResolveParsed, LocalReference;
      OutputNotice(lib, items[0].expression, c, r);
      OutputNotices(lib, items[1..], c, r);
    }
  }

  /** Discovery is tight: two contexts that differ at one reported output alone are told apart. */
  lemma EveryReferenceMatters(lib: Library, input: Bytes, c: Context, r: StepOutput)
    requires Lawful(lib)
    requires References(lib, input, LiteralOrExpression).Ok? && r in References(lib, input, LiteralOrExpression).value
    ensures var absent, present := OnlyStep(c, r, false), OnlyStep(c, r, true);
            && AgreeOffSteps(absent, present)
            && (forall other :: other != r ==> AgreeAt(absent, present, other))
            && ResolveValue(lib, input, absent) != ResolveValue(lib, input, present)
  {
    hide ResolveParsed, Scan, Rendered, Substitute, Show, InOrder, LocalReference;
    var absent, present := OnlyStep(c, r, false), OnlyStep(c, r, true);
    match Classify(lib, input) {
      case Ok(Whole(expression)) =>
        OutputNotice(lib, expression, absent, r);
        OutputNotice(lib, expression, present, r);
      case Ok(Template(items)) =>
        ScanInOrder(lib, input, 0);
        OutputNotices(lib, items, absent, r);
        OutputNotices(lib, items, present, r);
      case _ =>
    }
  }
}
