/**
 * Parsed Runtime Expressions and the values they name. All text is held as its UTF-8 bytes, the
 * unit in which the scanner reports ranges.
 */
module RuntimeExpressions {
  import opened Options
  import opened Utf8
  import opened JsonValues

  datatype Namespace =
    | Url | Method | StatusCode | Request | Response | Message | Inputs | Outputs
    | Steps | Workflows | SourceDescriptions | Components | SelfUri

  datatype Form =
    | Scalar
    | Header(name: Bytes)
    | Query(name: Bytes)
    | Path(name: Bytes)
    | Body(pointer: Option<Bytes>)
    | Payload(pointer: Option<Bytes>)
    | Named(name: Bytes, pointer: Option<Bytes>)
    | Step(stepId: Bytes, outputName: Bytes, pointer: Option<Bytes>)
    | Workflow(id: Bytes, field: Bytes, name: Bytes, pointer: Option<Bytes>)
    | Source(sourceName: Bytes, referenceId: Bytes)
    | Component(section: Bytes, name: Bytes)

  datatype Expression = Expression(raw: Bytes, namespace: Namespace, form: Form)

  /** The forms the grammar gives each namespace. */
  predicate Canonical(e: Expression) {
    match e.namespace
    case Url | Method | StatusCode | SelfUri => e.form.Scalar?
    case Inputs | Outputs => e.form.Named?
    case Steps => e.form.Step?
    case Workflows => e.form.Workflow?
    case SourceDescriptions => e.form.Source?
    case Components => e.form.Component?
    case Request | Response => e.form.Header? || e.form.Query? || e.form.Path? || e.form.Body?
    case Message => e.form.Header? || e.form.Payload?
  }

  /** A half-open byte range. */
  datatype Range = Range(start: nat, end: nat)

  type Value = Json<Bytes>

  /** The parts used as given: the expression parser, JSON printing and JSON Pointer lookup. */
  datatype Library = Library(
    parse: Bytes -> Result<Expression, Range>,
    show: Value -> Bytes,
    pointer: (Value, Bytes) -> Option<Value>)

  const DOLLAR: Byte := 0x24
  const OPEN: Byte := 0x7B
  const CLOSE: Byte := 0x7D

  /** What the parser promises: an accepted text is returned whole, starts with `$` and is canonical. */
  ghost predicate Lawful(lib: Library) {
    && (forall t {:trigger lib.parse(t)} :: lib.parse(t).Ok? ==>
         t != [] && t[0] == DOLLAR && lib.parse(t).value.raw == t && Canonical(lib.parse(t).value))
    && (forall t {:trigger lib.parse(t)} :: lib.parse(t).Err? ==> var r := lib.parse(t).error;
         r.start <= r.end <= |t| && (ValidUtf8(t) ==> ValidUtf8(t[r.start..r.end])))
  }

  // ----- The context -----

  datatype WorkflowState = WorkflowState(inputs: map<Bytes, Value>, outputs: map<Bytes, Value>)

  datatype SourceContext = SourceContext(url: Bytes, kind: Bytes)

  /** Header fields are listed in key order, since a case-insensitive lookup takes the first match. */
  type Headers = seq<(Bytes, Bytes)>

  datatype Context = Context(
    inputs: map<Bytes, Value>,
    steps: map<Bytes, map<Bytes, Value>>,
    outputs: map<Bytes, Value>,
    workflows: map<Bytes, WorkflowState>,
    statusCode: Option<int>,
    verb: Option<Bytes>,
    url: Option<Bytes>,
    requestHeaders: Headers,
    requestQuery: map<Bytes, Bytes>,
    requestPath: map<Bytes, Bytes>,
    requestBody: Option<Value>,
    messageHeaders: Headers,
    messagePayload: Option<Value>,
    selfUri: Option<Bytes>,
    sources: map<Bytes, SourceContext>,
    responseHeaders: Headers,
    responseBody: Option<Value>)

  // ----- Resolution -----

  datatype Side = Input | Output

  datatype Notice =
    | SelfUriMissing
    | NameMissing(side: Side, name: Bytes)
    | OutputNotInStep(name: Bytes, stepId: Bytes)
    | StepMissing(stepId: Bytes)
    | WorkflowMissing(id: Bytes)
    | NotInWorkflow(side: Side, name: Bytes, id: Bytes)
    | SourceMissing(name: Bytes)
    | SourceUnresolvable(reference: Bytes, name: Bytes)
    | UnknownNamespace(raw: Bytes)
    | MessageHeaderMissing(name: Bytes)
    | PayloadMissing
    | PayloadSuffix(pointer: Option<Bytes>)
    | PointerUnresolved(pointer: Option<Bytes>, name: Bytes)
    | BadExpression(range: Range)
    | BadTemplate(syntax: bool, range: Range)

  datatype Warning = Warning(expression: Bytes, message: Notice)

  /** Absence stays distinct from a present JSON null until the result is published. */
  datatype Resolution = Resolution(value: Option<Value>, warnings: seq<Warning>)

  function FromOption(value: Option<Value>): Resolution {
    Resolution(value, [])
  }

  function Missing(e: Expression, message: Notice): Resolution {
    Resolution(None, [Warning(e.raw, message)])
  }

  function IntoPublic(r: Resolution): (Value, seq<Warning>) {
    (match r.value case Some(v) => v case None => Null, r.warnings)
  }

  function Get<V>(m: map<Bytes, V>, key: Bytes): Option<V> {
    if key in m then Some(m[key]) else None
  }

  function Text(value: Option<Bytes>): Option<Value> {
    match value case Some(t) => Some(String(t)) case None => None
  }

  function Lower(b: Byte): Byte {
    if 0x41 <= b <= 0x5A then b + 0x20 else b
  }

  predicate EqIgnoreCase(s: Bytes, t: Bytes) {
    |s| == |t| && forall i :: 0 <= i < |s| ==> Lower(s[i]) == Lower(t[i])
  }

  function FindHeader(headers: Headers, matches: Bytes -> bool): Option<Bytes> {
    if headers == [] then None
    else if matches(headers[0].0) then Some(headers[0].1)
    else FindHeader(headers[1..], matches)
  }

  function GetHeader(headers: Headers, name: Bytes): Option<Bytes> {
    match FindHeader(headers, key => key == name)
    case Some(value) => Some(value)
    case None => FindHeader(headers, key => EqIgnoreCase(key, name))
  }

  function SelectPointer(lib: Library, value: Value, pointer: Option<Bytes>): Option<Value> {
    match pointer
    case Some(p) => lib.pointer(value, p)
    case None => Some(value)
  }

  function SelectFrom(lib: Library, value: Option<Value>, pointer: Option<Bytes>): Option<Value> {
    match value
    case Some(v) => SelectPointer(lib, v, pointer)
    case None => None
  }

  function ResolveNamed(lib: Library, values: map<Bytes, Value>, name: Bytes, pointer: Option<Bytes>, e: Expression,
                        missing: Notice): Resolution {
    if name !in values then Missing(e, missing)
    else match SelectPointer(lib, values[name], pointer)
      case Some(value) => FromOption(Some(value))
      case None => Missing(e, PointerUnresolved(pointer, name))
  }

  function ResolveStep(lib: Library, e: Expression, steps: map<Bytes, map<Bytes, Value>>): Resolution
    requires e.form.Step?
  {
    var Step(id, name, pointer) := e.form;
    if id !in steps then Missing(e, StepMissing(id))
    else ResolveNamed(lib, steps[id], name, pointer, e, OutputNotInStep(name, id))
  }

  function ResolveWorkflow(lib: Library, e: Expression, workflows: map<Bytes, WorkflowState>): Resolution
    requires e.form.Workflow?
  {
    var Workflow(id, field, name, pointer) := e.form;
    if id !in workflows then Missing(e, WorkflowMissing(id))
    else if EqIgnoreCase(field, Encode("inputs")) then
      ResolveNamed(lib, workflows[id].inputs, name, pointer, e, NotInWorkflow(Input, name, id))
    else
      ResolveNamed(lib, workflows[id].outputs, name, pointer, e, NotInWorkflow(Output, name, id))
  }

  function ResolveSource(e: Expression, sources: map<Bytes, SourceContext>): Resolution
    requires e.form.Source?
  {
    var Source(name, reference) := e.form;
    if name !in sources then Missing(e, SourceMissing(name))
    else if reference == Encode("url") then FromOption(Some(String(sources[name].url)))
    else if reference == Encode("type") then FromOption(Some(String(sources[name].kind)))
    else Missing(e, SourceUnresolvable(reference, name))
  }

  function ResolveRequest(lib: Library, e: Expression, c: Context): Resolution {
    match e.form
    case Header(name) => FromOption(Text(GetHeader(c.requestHeaders, name)))
    case Query(name) => FromOption(Text(Get(c.requestQuery, name)))
    case Path(name) => FromOption(Text(Get(c.requestPath, name)))
    case Body(pointer) => FromOption(SelectFrom(lib, c.requestBody, pointer))
    case _ => FromOption(None)
  }

  function ResolveResponse(lib: Library, e: Expression, c: Context): Resolution {
    match e.form
    case Header(name) => FromOption(Text(GetHeader(c.responseHeaders, name)))
    case Body(pointer) => FromOption(SelectFrom(lib, c.responseBody, pointer))
    case _ => FromOption(None)
  }

  function ResolveMessage(lib: Library, e: Expression, c: Context): Resolution {
    match e.form
    case Header(name) =>
      (match GetHeader(c.messageHeaders, name)
       case Some(value) => FromOption(Some(String(value)))
       case None => Missing(e, MessageHeaderMissing(name)))
    case Payload(pointer) =>
      (match c.messagePayload
       case None => Missing(e, PayloadMissing)
       case Some(payload) =>
         match SelectPointer(lib, payload, pointer)
         case Some(value) => FromOption(Some(value))
         case None => Missing(e, PayloadSuffix(pointer)))
    case _ => FromOption(None)
  }

  function ResolveParsed(lib: Library, e: Expression, c: Context): Resolution
    requires Canonical(e)
  {
    match e.namespace
    case Url => FromOption(Text(c.url))
    case Method => FromOption(Text(c.verb))
    case StatusCode => FromOption(match c.statusCode case Some(n) => Some(Number(n as real)) case None => None)
    case SelfUri =>
      (match c.selfUri
       case Some(uri) => FromOption(Some(String(uri)))
       case None => Missing(e, SelfUriMissing))
    case Inputs => ResolveNamed(lib, c.inputs, e.form.name, e.form.pointer, e, NameMissing(Input, e.form.name))
    case Outputs => ResolveNamed(lib, c.outputs, e.form.name, e.form.pointer, e, NameMissing(Output, e.form.name))
    case Steps => ResolveStep(lib, e, c.steps)
    case Workflows => ResolveWorkflow(lib, e, c.workflows)
    case SourceDescriptions => ResolveSource(e, c.sources)
    case Components => Missing(e, UnknownNamespace(e.raw))
    case Request => ResolveRequest(lib, e, c)
    case Response => ResolveResponse(lib, e, c)
    case Message => ResolveMessage(lib, e, c)
  }

  // ----- What an expression names -----

  /** The whole value an expression starts from, before its pointer is followed. */
  ghost function RootOf(e: Expression, c: Context): Option<Value>
    requires Canonical(e)
  {
    match e.form
    case Scalar =>
      if e.namespace.StatusCode? then (if c.statusCode.Some? then Some(Number(c.statusCode.value as real)) else None)
      else TextValue(if e.namespace.Url? then c.url else if e.namespace.Method? then c.verb else c.selfUri)
    case Header(name) =>
      TextValue(GetHeader(if e.namespace.Request? then c.requestHeaders
                          else if e.namespace.Response? then c.responseHeaders
                          else c.messageHeaders, name))
    case Query(name) =>
      if e.namespace.Request? && name in c.requestQuery then Some(String(c.requestQuery[name])) else None
    case Path(name) =>
      if e.namespace.Request? && name in c.requestPath then Some(String(c.requestPath[name])) else None
    case Body(_) => if e.namespace.Request? then c.requestBody else c.responseBody
    case Payload(_) => c.messagePayload
    case Named(name, _) =>
      var values := if e.namespace.Inputs? then c.inputs else c.outputs;
      if name in values then Some(values[name]) else None
    case Step(id, name, _) => if id in c.steps && name in c.steps[id] then Some(c.steps[id][name]) else None
    case Workflow(id, field, name, _) =>
      if id !in c.workflows then None
      else
        var values := if EqIgnoreCase(field, Encode("inputs")) then c.workflows[id].inputs else c.workflows[id].outputs;
        if name in values then Some(values[name]) else None
    case Source(name, reference) =>
      if name !in c.sources || reference !in {Encode("url"), Encode("type")} then None
      else Some(String(if reference == Encode("url") then c.sources[name].url else c.sources[name].kind))
    case Component(_, _) => None
  }

  ghost function TextValue(text: Option<Bytes>): Option<Value> {
    if text.None? then None else Some(String(text.value))
  }

  /** What an expression names: its root, or what the pointer behind it leads to there. */
  ghost function ValueNamed(lib: Library, e: Expression, c: Context): Option<Value>
    requires Canonical(e)
  {
    var root, pointer := RootOf(e, c), PointerOf(e);
    if root.None? || pointer.None? then root else lib.pointer(root.value, pointer.value)
  }

  ghost function PointerOf(e: Expression): Option<Bytes> {
    match e.form
    case Body(p) => p
    case Payload(p) => p
    case Named(_, p) => p
    case Step(_, _, p) => p
    case Workflow(_, _, _, p) => p
    case _ => None
  }

  /** The namespaces whose absent values are reported. */
  ghost predicate Reports(n: Namespace) {
    !(n.Url? || n.Method? || n.StatusCode? || n.Request? || n.Response?)
  }

  /** Why a value is missing: the first name on the way to the root that is not there, or else the pointer. */
  ghost function NoticeOf(e: Expression, c: Context): Notice
    requires Canonical(e)
  {
    match e.form
    case Header(name) => MessageHeaderMissing(name)
    case Payload(pointer) => if c.messagePayload.None? then PayloadMissing else PayloadSuffix(pointer)
    case Named(name, pointer) =>
      if RootOf(e, c).Some? then PointerUnresolved(pointer, name)
      else NameMissing(if e.namespace.Inputs? then Input else Output, name)
    case Step(id, name, pointer) =>
      if RootOf(e, c).Some? then PointerUnresolved(pointer, name)
      else if id in c.steps then OutputNotInStep(name, id)
      else StepMissing(id)
    case Workflow(id, field, name, pointer) =>
      if RootOf(e, c).Some? then PointerUnresolved(pointer, name)
      else if id in c.workflows then
          NotInWorkflow(if EqIgnoreCase(field, Encode("inputs")) then Input else Output, name, id)
      else WorkflowMissing(id)
    case Source(name, reference) =>
      if name in c.sources then SourceUnresolvable(reference, name) else SourceMissing(name)
    case _ => if e.namespace.SelfUri? then SelfUriMissing else UnknownNamespace(e.raw)
  }

  /**
   * The value is the root with the pointer followed. A value found carries no warning, a JSON null
   * included; one not found carries, in the reporting namespaces, the one notice of what is missing.
   */
  lemma ResolvedExactly(lib: Library, e: Expression, c: Context)
    requires Canonical(e)
    ensures ResolveParsed(lib, e, c).value == ValueNamed(lib, e, c)
    ensures ResolveParsed(lib, e, c).warnings ==
            if ResolveParsed(lib, e, c).value.None? && Reports(e.namespace)
            then [Warning(e.raw, NoticeOf(e, c))]
            else []
  {
    hide ResolveParsed, ValueNamed, NoticeOf;
    if e.namespace.Steps? || e.namespace.Workflows? {
      ResolvedFromStore(lib, e, c);
    } else if e.namespace.Request? || e.namespace.Response? || e.namespace.Message? {
      ResolvedFromExchange(lib, e, c);
    } else {
      ResolvedByName(lib, e, c);
    }
  }

  lemma ResolvedByName(lib: Library, e: Expression, c: Context)
    requires Canonical(e) && !e.namespace.Steps? && !e.namespace.Workflows?
    requires !e.namespace.Request? && !e.namespace.Response? && !e.namespace.Message?
    ensures ResolveParsed(lib, e, c).value == ValueNamed(lib, e, c)
    ensures ResolveParsed(lib, e, c).warnings ==
            if ResolveParsed(lib, e, c).value.None? && Reports(e.namespace)
            then [Warning(e.raw, NoticeOf(e, c))]
            else []
  {
    hide GetHeader, EqIgnoreCase, Encode;
  }

  /** Bytes that differ as the two cases of one ASCII letter. */
  predicate IsOtherCase(a: Byte, b: Byte) {
    (0x41 <= a <= 0x5A && b == a + 0x20) || (0x41 <= b <= 0x5A && a == b + 0x20)
  }

  /** Names are equal ignoring case when they differ, byte by byte, in the case of ASCII letters alone. */
  lemma EqIgnoreCaseExact(s: Bytes, t: Bytes)
    ensures EqIgnoreCase(s, t) <==> |s| == |t| && forall i :: 0 <= i < |s| ==> s[i] == t[i] || IsOtherCase(s[i], t[i])
  {
    forall a: Byte, b: Byte ensures Lower(a) == Lower(b) <==> a == b || IsOtherCase(a, b) {}
  }

  lemma ResolvedFromStore(lib: Library, e: Expression, c: Context)
    requires Canonical(e) && (e.namespace.Steps? || e.namespace.Workflows?)
    ensures ResolveParsed(lib, e, c).value == ValueNamed(lib, e, c)
    ensures ResolveParsed(lib, e, c).warnings ==
            if ResolveParsed(lib, e, c).value.None? then [Warning(e.raw, NoticeOf(e, c))] else []
  {
    hide EqIgnoreCase, Encode;
  }

  lemma ResolvedFromExchange(lib: Library, e: Expression, c: Context)
    requires Canonical(e) && (e.namespace.Request? || e.namespace.Response? || e.namespace.Message?)
    ensures ResolveParsed(lib, e, c).value == ValueNamed(lib, e, c)
    ensures ResolveParsed(lib, e, c).warnings ==
            if ResolveParsed(lib, e, c).value.None? && e.namespace.Message?
            then [Warning(e.raw, NoticeOf(e, c))]
            else []
  {
    hide GetHeader;
  }

  /** A header is the field of that exact name, or else the first whose name differs in case only. */
  lemma GetHeaderExact(headers: Headers, name: Bytes)
    ensures GetHeader(headers, name).None? <==> forall i :: 0 <= i < |headers| ==> !EqIgnoreCase(headers[i].0, name)
    ensures (exists i :: 0 <= i < |headers| && headers[i].0 == name) ==>
              exists i :: 0 <= i < |headers| && headers[i] == (name, GetHeader(headers, name).value)
    ensures GetHeader(headers, name).Some? && (forall i :: 0 <= i < |headers| ==> headers[i].0 != name) ==>
              exists i :: 0 <= i < |headers| && EqIgnoreCase(headers[i].0, name)
                  && GetHeader(headers, name) == Some(headers[i].1)
                          && forall j :: 0 <= j < i ==> !EqIgnoreCase(headers[j].0, name)
  {
    FindHeaderExact(headers, key => key == name);
    FindHeaderExact(headers, key => EqIgnoreCase(key, name));
    assert EqIgnoreCase(name, name);
  }

  lemma {:induction false} FindHeaderExact(headers: Headers, matches: Bytes -> bool)
    ensures FindHeader(headers, matches).None? <==> forall i :: 0 <= i < |headers| ==> !matches(headers[i].0)
    ensures FindHeader(headers, matches).Some? ==>
              exists i :: 0 <= i < |headers| && matches(headers[i].0)
                  && headers[i].1 == FindHeader(headers, matches).value
                          && forall j :: 0 <= j < i ==> !matches(headers[j].0)
  {
    if headers != [] {
      var rest := headers[1..];
      FindHeaderExact(rest, matches);
      if matches(headers[0].0) {
        assert headers[0].1 == FindHeader(headers, matches).value;
      } else if FindHeader(rest, matches).Some? {
        var i :| 0 <= i < |rest| && matches(rest[i].0) && rest[i].1 == FindHeader(rest, matches).value
                 && forall j :: 0 <= j < i ==> !matches(rest[j].0);
        assert headers[i + 1] == rest[i] && forall j :: 0 < j < i + 1 ==> headers[j] == rest[j - 1];
      } else {
        assert forall i :: 0 < i < |headers| ==> headers[i] == rest[i - 1];
      }
    }
  }
}
