/** The inventory of expression-bearing fields effective for one step. */
module ExpressionSites {
  import opened Options

  // ----- Values -----

  datatype Yaml =
    | Null
    | Bool(flag: bool)
    | Number(number: real)
    | String(text: string)
    | Sequence(items: seq<Yaml>)
    | Mapping(entries: seq<(Yaml, Yaml)>)
    | Tagged(tag: string, value: Yaml)

  /** A directly typed Selector Object, by its context, or a literal. */
  datatype ValueSource = Selector(context: string) | Literal(value: Yaml)

  datatype Segment = SequenceIndex(i: nat) | MappingEntry(i: nat, key: Option<string>) | SelectorContext

  datatype Mode = LiteralOrExpression | RequiredExpression | SimpleCondition | EmbeddedCondition

  /** Text found below a declared value, with the way to it. */
  datatype Found = Found(path: seq<Segment>, text: string, mode: Mode)

  /** The context of a mapping that the model admits as a Selector Object. */
  type Admission = Yaml -> Option<string>

  function Children(v: Yaml): (children: seq<Yaml>)
    ensures forall i :: 0 <= i < |children| ==> children[i] < v
  {
    match v
    case Sequence(items) => items
    case Mapping(entries) =>
      assert forall i :: 0 <= i < |entries| ==> entries[i] < v;
      seq(|entries|, i requires 0 <= i < |entries| => entries[i].1)
    case _ => []
  }

  function Label(key: Yaml): Option<string> {
    if key.String? then Some(key.text) else None
  }

  function SegmentOf(v: Yaml, i: nat): Segment
    requires i < |Children(v)|
  {
    if v.Mapping? then MappingEntry(i, Label(v.entries[i].0)) else SequenceIndex(i)
  }

  // ----- What is listed -----

  function Under(base: seq<Segment>, found: seq<Found>): (r: seq<Found>)
    ensures |r| == |found| && forall i :: 0 <= i < |r| ==> r[i] == found[i].(path := base + found[i].path)
  {
    seq(|found|, i requires 0 <= i < |found| => found[i].(path := base + found[i].path))
  }

  function LiteralSites(admit: Admission, v: Yaml): seq<Found>
    decreases v, |Children(v)| + 1
  {
    if v.String? then [Found([], v.text, LiteralOrExpression)] else ItemSites(admit, v, |Children(v)|)
  }

  /** The sites below the first `n` children. */
  function ItemSites(admit: Admission, v: Yaml, n: nat): seq<Found>
    requires n <= |Children(v)|
    decreases v, n
  {
    if n == 0 then []
    else ItemSites(admit, v, n - 1) + Under([SegmentOf(v, n - 1)], ChildSites(admit, Children(v)[n - 1]))
  }

  function ChildSites(admit: Admission, child: Yaml): seq<Found>
    decreases child, |Children(child)| + 2
  {
    match admit(child)
    case Some(context) => [Found([SelectorContext], context, RequiredExpression)]
    case None => LiteralSites(admit, child)
  }

  function SourceSites(admit: Admission, source: ValueSource): seq<Found> {
    match source
    case Selector(context) => [Found([SelectorContext], context, RequiredExpression)]
    case Literal(value) => LiteralSites(admit, value)
  }

  // ----- Following a path -----

  datatype Leaf = Leaf(text: string, mode: Mode)

  ghost function Position(s: Segment): nat {
    if s.SelectorContext? then 0 else s.i
  }

  /** The key under which a mapping entry is reached, if it is a text. */
  ghost predicate IsKey(key: Yaml, text: Option<string>) {
    if key.String? then text == Some(key.text) else text == None
  }

  /** The child a segment leads to. */
  ghost function ChildAt(v: Yaml, s: Segment): Option<Yaml> {
    match s
    case SequenceIndex(i) => if v.Sequence? && i < |v.items| then Some(v.items[i]) else None
    case MappingEntry(i, key) =>
      if v.Mapping? && i < |v.entries| && IsKey(v.entries[i].0, key) then Some(v.entries[i].1) else None
    case SelectorContext => None
  }

  /** What a path leads to below a literal: a string leaf, or an admitted selector's context. */
  ghost function Follow(admit: Admission, v: Yaml, path: seq<Segment>): Option<Leaf>
    decreases |path|, 0
  {
    if path == [] then (if v.String? then Some(Leaf(v.text, LiteralOrExpression)) else None)
    else
      match ChildAt(v, path[0])
      case Some(child) => FollowChild(admit, child, path[1..])
      case None => None
  }

  lemma ChildrenAt(v: Yaml)
    ensures forall s :: ChildAt(v, s) ==
              var i := Position(s);
              if i < |Children(v)| && s == SegmentOf(v, i) then Some(Children(v)[i]) else None
  {}

  ghost function FollowChild(admit: Admission, child: Yaml, path: seq<Segment>): Option<Leaf>
    decreases |path|, 1
  {
    match admit(child)
    case Some(context) => if path == [SelectorContext] then Some(Leaf(context, RequiredExpression)) else None
    case None => Follow(admit, child, path)
  }

  ghost function FollowSource(admit: Admission, source: ValueSource, path: seq<Segment>): Option<Leaf> {
    match source
    case Selector(context) => if path == [SelectorContext] then Some(Leaf(context, RequiredExpression)) else None
    case Literal(value) => Follow(admit, value, path)
  }

  /** Stored order: the paths part at some step, and there `p` takes the earlier child. */
  ghost predicate Before(p: seq<Segment>, q: seq<Segment>) {
    exists k :: 0 <= k < |p| && k < |q| && p[..k] == q[..k] && Position(p[k]) < Position(q[k])
  }

  ghost predicate Ordered(found: seq<Found>) {
    forall i, j :: 0 <= i < j < |found| ==> Before(found[i].path, found[j].path)
  }

  lemma BeforeUnder(s: Segment, p: seq<Segment>, q: seq<Segment>)
    requires Before(p, q)
    ensures Before([s] + p, [s] + q)
  {
    var k :| 0 <= k < |p| && k < |q| && p[..k] == q[..k] && Position(p[k]) < Position(q[k]);
    var x, y := [s] + p, [s] + q;
    assert x[..k + 1] == [s] + p[..k] && y[..k + 1] == [s] + q[..k];
    assert Position(x[k + 1]) < Position(y[k + 1]);
  }

  lemma UnderOrdered(s: Segment, found: seq<Found>)
    requires Ordered(found)
    ensures Ordered(Under([s], found))
  {
    forall i, j | 0 <= i < j < |found| ensures Before(([s] + found[i].path), ([s] + found[j].path)) {
      BeforeUnder(s, found[i].path, found[j].path);
    }
  }

  lemma InUnder(s: Segment, found: seq<Found>, f: Found)
    ensures f in Under([s], found) <==> f.path != [] && f.path[0] == s && f.(path := f.path[1..]) in found
  {
    if f in Under([s], found) {
      var i :| 0 <= i < |found| && Under([s], found)[i] == f;
      assert ([s] + found[i].path)[1..] == found[i].path;
    }
    if f.path != [] && f.path[0] == s && f.(path := f.path[1..]) in found {
      var i :| 0 <= i < |found| && found[i] == f.(path := f.path[1..]);
      assert f.path == [s] + f.path[1..];
      assert Under([s], found)[i] == f;
    }
  }

  /** `f` lies below one of the first `n` children. */
  ghost predicate BelowFirst(admit: Admission, v: Yaml, n: nat, f: Found)
    requires n <= |Children(v)|
  {
    && f.path != [] && Position(f.path[0]) < n && f.path[0] == SegmentOf(v, Position(f.path[0]))
    && FollowChild(admit, Children(v)[Position(f.path[0])], f.path[1..]) == Some(Leaf(f.text, f.mode))
  }

  lemma OrderedAppend(left: seq<Found>, right: seq<Found>, n: nat)
    requires Ordered(left) && Ordered(right)
    requires forall i :: 0 <= i < |left| ==> left[i].path != [] && Position(left[i].path[0]) < n
    requires forall i :: 0 <= i < |right| ==> right[i].path != [] && Position(right[i].path[0]) == n
    ensures Ordered(left + right)
  {
    forall i, j | 0 <= i < |left| && 0 <= j < |right| ensures Before(left[i].path, right[j].path) {
      assert left[i].path[..0] == right[j].path[..0];
    }
  }

  lemma {:induction false} ItemsExact(admit: Admission, v: Yaml, n: nat)
    requires n <= |Children(v)|
    ensures forall f :: f in ItemSites(admit, v, n) <==> BelowFirst(admit, v, n, f)
    ensures Ordered(ItemSites(admit, v, n))
    decreases v, n
  {
    if n > 0 {
      hide Ordered, BelowFirst, FollowChild, ChildSites, Children;
      ItemsExact(admit, v, n - 1);
      ChildExact(admit, Children(v)[n - 1]);
      OneMoreItem(admit, v, n, ItemSites(admit, v, n - 1), ChildSites(admit, Children(v)[n - 1]));
    } else {
      NoItems(admit, v);
    }
  }

  lemma NoItems(admit: Admission, v: Yaml)
    ensures Ordered([]) && forall f :: !BelowFirst(admit, v, 0, f)
  {}

  lemma OneMoreItem(admit: Admission, v: Yaml, n: nat, left: seq<Found>, below: seq<Found>)
    requires 0 < n <= |Children(v)| && Ordered(left) && Ordered(below)
    requires forall f :: f in left <==> BelowFirst(admit, v, n - 1, f)
    requires forall f :: f in below <==> FollowChild(admit, Children(v)[n - 1], f.path) == Some(Leaf(f.text, f.mode))
    ensures var s := SegmentOf(v, n - 1);
            && Ordered(left + Under([s], below))
            && forall f :: f in left + Under([s], below) <==> BelowFirst(admit, v, n, f)
  {
    var child, s := Children(v)[n - 1], SegmentOf(v, n - 1);
    var right := Under([s], below);
    assert Position(s) == n - 1;
    hide FollowChild, Ordered, Under;
    forall f ensures f in right <==>
      f.path != [] && f.path[0] == s
      && FollowChild(admit, child, f.path[1..]) == Some(Leaf(f.text, f.mode)) {
      InUnder(s, below, f);
    }
    UnderOrdered(s, below);
    forall i | 0 <= i < |left| ensures left[i].path != [] && Position(left[i].path[0]) < n - 1 {
      assert left[i] in left;
    }
    forall i | 0 <= i < |right| ensures right[i].path != [] && Position(right[i].path[0]) == n - 1 {
      assert right[i] in right;
    }
    OrderedAppend(left, right, n - 1);
  }

  lemma {:induction false} ChildExact(admit: Admission, child: Yaml)
    ensures forall f :: f in ChildSites(admit, child)
                        <==> FollowChild(admit, child, f.path) == Some(Leaf(f.text, f.mode))
    ensures Ordered(ChildSites(admit, child))
    decreases child, |Children(child)| + 2
  {
    if admit(child).None? {
      LiteralExact(admit, child);
    }
  }

  /** The walk of a literal is exact: each leaf once, under its own path, in stored order. */
  lemma {:induction false} LiteralExact(admit: Admission, v: Yaml)
    ensures forall f :: f in LiteralSites(admit, v) <==> Follow(admit, v, f.path) == Some(Leaf(f.text, f.mode))
    ensures Ordered(LiteralSites(admit, v))
    decreases v, |Children(v)| + 1
  {
    if !v.String? {
      ItemsExact(admit, v, |Children(v)|);
      hide FollowChild, Ordered, ItemSites, Children;
      ChildrenAt(v);
    }
  }

  lemma SourceExact(admit: Admission, source: ValueSource)
    ensures forall f :: f in SourceSites(admit, source)
                        <==> FollowSource(admit, source, f.path) == Some(Leaf(f.text, f.mode))
    ensures Ordered(SourceSites(admit, source))
  {
    if source.Literal? {
      LiteralExact(admit, source.value);
    }
  }

  // ----- Steps and workflows -----

  datatype Location = Path | Query | Header | Cookie | Body

  datatype Parameter = Parameter(name: string, location: Option<Location>, value: ValueSource)

  datatype RequestBody = RequestBody(payload: Option<ValueSource>, replacements: seq<ValueSource>)

  /** `kind` is the normalised type name, `simple` when none is declared. */
  datatype Criterion = Criterion(context: string, condition: string, kind: string)

  datatype OutputValue = RuntimeExpression(text: string) | SelectorOutput(context: string)

  /** Outputs are listed in key order. */
  datatype Step = Step(
    parameters: seq<Parameter>,
    body: Option<RequestBody>,
    criteria: seq<Criterion>,
    outputs: seq<(string, OutputValue)>,
    correlationId: Option<string>)

  datatype Workflow = Workflow(parameters: seq<Parameter>, steps: seq<Step>)

  // ----- Parameter inheritance -----

  datatype Origin = FromWorkflow(parameterIndex: nat) | FromStep(stepIndex: nat, parameterIndex: nat)

  datatype Effective = Effective(parameter: Parameter, origin: Origin)

  /** Identity is the case-sensitive (name, location) pair, an absent location included. */
  predicate Overridden(step: Step, p: Parameter) {
    exists i :: 0 <= i < |step.parameters| && step.parameters[i].name == p.name
        && step.parameters[i].location == p.location
  }

  function Inherited(w: Workflow, step: Step, n: nat): seq<Effective>
    requires n <= |w.parameters|
  {
    if n == 0 then []
    else
      var p := w.parameters[n - 1];
      Inherited(w, step, n - 1) + (if Overridden(step, p) then [] else [Effective(p, FromWorkflow(n - 1))])
  }

  function Declared(step: Step, stepIndex: nat): (r: seq<Effective>)
    ensures |r| == |step.parameters|
  {
    seq(|step.parameters|,
        i requires 0 <= i < |step.parameters| => Effective(step.parameters[i], FromStep(stepIndex, i)))
  }

  function EffectiveStepParameters(w: Workflow, stepIndex: nat): Option<seq<Effective>> {
    if stepIndex >= |w.steps| then None
    else Some(Inherited(w, w.steps[stepIndex], |w.parameters|) + Declared(w.steps[stepIndex], stepIndex))
  }

  /**
   * `p` is in force for the step: one of its own parameters, or one of the workflow's for which no
   * parameter of the step has both the name and the location, an absent location being one of its own.
   */
  ghost predicate InForce(w: Workflow, stepIndex: nat, origin: Origin, p: Parameter)
    requires stepIndex < |w.steps|
  {
    var own := w.steps[stepIndex].parameters;
    match origin
    case FromWorkflow(i) =>
      i < |w.parameters| && p == w.parameters[i]
      && forall j :: 0 <= j < |own| ==> own[j].name != p.name || own[j].location != p.location
    case FromStep(s, i) => s == stepIndex && i < |own| && p == own[i]
  }

  /** Workflow declarations in source order, then step declarations in source order. */
  ghost predicate OriginBefore(a: Origin, b: Origin) {
    match a
    case FromWorkflow(i) => b.FromStep? || i < b.parameterIndex
    case FromStep(_, i) => b.FromStep? && i < b.parameterIndex
  }

  lemma {:induction false} InheritedExact(w: Workflow, step: Step, n: nat)
    requires n <= |w.parameters|
    ensures forall e :: e in Inherited(w, step, n) <==>
              (e.origin.FromWorkflow? && e.origin.parameterIndex < n
                  && e.parameter == w.parameters[e.origin.parameterIndex]
               && !Overridden(step, e.parameter))
    ensures forall i, j :: 0 <= i < j < |Inherited(w, step, n)| ==>
              OriginBefore(Inherited(w, step, n)[i].origin, Inherited(w, step, n)[j].origin)
  {
    if n > 0 {
      InheritedExact(w, step, n - 1);
      var before := Inherited(w, step, n - 1);
      assert forall i :: 0 <= i < |before| ==> before[i] in before;
    }
  }

  /**
   * Every step parameter is in force, and every workflow parameter no step parameter overrides; each once,
   * those of the workflow first, in source order.
   */
  lemma EffectiveExact(w: Workflow, stepIndex: nat)
    requires stepIndex < |w.steps|
    ensures var view := EffectiveStepParameters(w, stepIndex).value;
            && (forall e :: e in view <==> InForce(w, stepIndex, e.origin, e.parameter))
            && (forall i, j :: 0 <= i < j < |view| ==> OriginBefore(view[i].origin, view[j].origin))
  {
    var step := w.steps[stepIndex];
    var inherited, declared := Inherited(w, step, |w.parameters|), Declared(step, stepIndex);
    InheritedExact(w, step, |w.parameters|);
    hide Inherited;
    forall e ensures e in declared <==> e.origin.FromStep? && InForce(w, stepIndex, e.origin, e.parameter) {
      if e.origin.FromStep? && InForce(w, stepIndex, e.origin, e.parameter) {
        assert declared[e.origin.parameterIndex] == e;
      }
    }
    assert forall i :: 0 <= i < |inherited| ==> inherited[i] in inherited;
  }

  /** A step parameter leaves the workflow's parameter of its name in force when they differ in location alone. */
  lemma OtherLocationKept(w: Workflow, stepIndex: nat, i: nat, j: nat)
    requires stepIndex < |w.steps| && i < |w.parameters| && j < |w.steps[stepIndex].parameters|
    requires forall k :: 0 <= k < |w.steps[stepIndex].parameters| ==>
               w.steps[stepIndex].parameters[k].location != w.parameters[i].location
    ensures var view := EffectiveStepParameters(w, stepIndex).value;
            && Effective(w.parameters[i], FromWorkflow(i)) in view
            && Effective(w.steps[stepIndex].parameters[j], FromStep(stepIndex, j)) in view
  {
    hide EffectiveStepParameters;
    EffectiveExact(w, stepIndex);
  }

  // ----- The inventory -----

  datatype Declaration =
    | EffectiveParameterValue(origin: Origin)
    | RequestBodyPayload
    | RequestBodyReplacementValue(index: nat)
    | SuccessCriterionContext(index: nat)
    | SuccessCriterionCondition(index: nat)
    | Output(name: string)
    | CorrelationId

  datatype Site = Site(text: string, mode: Mode, declaration: Declaration, path: seq<Segment>)

  /** What a declaration supplies: a value to walk, or one text with its mode. */
  datatype Supply = Walked(source: ValueSource) | Plain(text: string, mode: Mode)

  datatype Block = Block(declaration: Declaration, supply: Supply)

  function SupplySites(admit: Admission, supply: Supply): seq<Found> {
    match supply
    case Walked(source) => SourceSites(admit, source)
    case Plain(text, mode) => [Found([], text, mode)]
  }

  function At(declaration: Declaration, base: seq<Segment>, found: seq<Found>): (r: seq<Site>)
    ensures |r| == |found|
    ensures forall i :: 0 <= i < |r| ==> r[i] == Site(found[i].text, found[i].mode, declaration, base + found[i].path)
  {
    seq(|found|, i requires 0 <= i < |found| => Site(found[i].text, found[i].mode, declaration, base + found[i].path))
  }

  function BlockSites(admit: Admission, block: Block): seq<Site> {
    At(block.declaration, [], SupplySites(admit, block.supply))
  }

  function AllSites(admit: Admission, blocks: seq<Block>): seq<Site> {
    if blocks == [] then [] else AllSites(admit, blocks[..|blocks| - 1]) + BlockSites(admit, blocks[|blocks| - 1])
  }

  lemma AllSitesAppend(admit: Admission, blocks: seq<Block>, block: Block)
    ensures AllSites(admit, blocks + [block]) == AllSites(admit, blocks) + BlockSites(admit, block)
  {
    assert (blocks + [block])[..|blocks|] == blocks;
  }

  lemma AtAppend(d: Declaration, base: seq<Segment>, f: seq<Found>, g: seq<Found>)
    ensures At(d, base, f + g) == At(d, base, f) + At(d, base, g)
  {}

  lemma AtUnder(d: Declaration, base: seq<Segment>, s: Segment, found: seq<Found>)
    ensures At(d, base, Under([s], found)) == At(d, base + [s], found)
  {
    forall i | 0 <= i < |found| ensures base + ([s] + found[i].path) == base + [s] + found[i].path {}
  }

  lemma ItemStep(admit: Admission, v: Yaml, n: nat, d: Declaration, base: seq<Segment>)
    requires n < |Children(v)|
    ensures forall before: seq<Site> ::
              before + At(d, base, ItemSites(admit, v, n))
              + At(d, base + [SegmentOf(v, n)], ChildSites(admit, Children(v)[n]))
              == before + At(d, base, ItemSites(admit, v, n + 1))
  {
    var s, below := SegmentOf(v, n), ChildSites(admit, Children(v)[n]);
    AtUnder(d, base, s, below);
    AtAppend(d, base, ItemSites(admit, v, n), Under([s], below));
  }

  /** The walk: one shared path, pushed and popped, and one growing list of sites. */
  class Walker {
    const admit: Admission
    var path: seq<Segment>
    var sites: seq<Site>

    constructor (admit: Admission)
      ensures this.admit == admit && path == [] && sites == []
    {
      this.admit := admit;
      path, sites := [], [];
    }

    method PushSite(text: string, mode: Mode, declaration: Declaration)
      modifies this`sites
      ensures sites == old(sites) + At(declaration, path, [Found([], text, mode)])
    {
      assert path + [] == path;
      sites := sites + [Site(text, mode, declaration, path)];
    }

    method PushSelectorContext(context: string, declaration: Declaration)
      modifies this
      ensures path == old(path)
      ensures sites == old(sites) + At(declaration, path, [Found([SelectorContext], context, RequiredExpression)])
    {
      path := path + [SelectorContext];
      PushSite(context, RequiredExpression, declaration);
      assert path + [] == path;
      path := path[..|path| - 1];
    }

    method VisitChild(child: Yaml, declaration: Declaration)
      modifies this
      ensures path == old(path) && sites == old(sites) + At(declaration, path, ChildSites(admit, child))
      decreases child, 1
    {
      match admit(child) {
        case Some(context) => PushSelectorContext(context, declaration);
        case None => VisitLiteral(child, declaration);
      }
    }

    /** The path stack is restored, and exactly the literal's sites are appended. */
    method VisitLiteral(value: Yaml, declaration: Declaration)
      modifies this
      ensures path == old(path) && sites == old(sites) + At(declaration, path, LiteralSites(admit, value))
      decreases value, 0
    {
      match value {
        case String(text) => PushSite(text, LiteralOrExpression, declaration);
        case Sequence(values) =>
          for index := 0 to |values|
            invariant path == old(path) && sites == old(sites) + At(declaration, path, ItemSites(admit, value, index))
          {
            hide At, ItemSites, ChildSites;
            ItemStep(admit, value, index, declaration, path);
            path := path + [SequenceIndex(index)];
            VisitChild(values[index], declaration);
            path := path[..|path| - 1];
          }
        case Mapping(values) =>
          for index := 0 to |values|
            invariant path == old(path) && sites == old(sites) + At(declaration, path, ItemSites(admit, value, index))
          {
            hide At, ItemSites, ChildSites;
            ItemStep(admit, value, index, declaration, path);
            var (key, child) := values[index];
            assert values[index] < value;
            path := path + [MappingEntry(index, Label(key))];
            VisitChild(child, declaration);
            path := path[..|path| - 1];
          }
        case _ =>
      }
    }
  }

  // ----- The blocks of a step, in inventory order -----

  function ModeOf(kind: string): Option<Mode> {
    if kind == "simple" then Some(SimpleCondition)
    else if kind in {"regex", "jsonpath", "xpath"} then Some(EmbeddedCondition)
    else None
  }

  function ParameterBlocks(view: seq<Effective>): (blocks: seq<Block>)
    ensures |blocks| == |view|
  {
    seq(|view|, i requires 0 <= i < |view| => Block(EffectiveParameterValue(view[i].origin),
        Walked(view[i].parameter.value)))
  }

  function PayloadBlocks(body: Option<RequestBody>): seq<Block> {
    if body.Some? && body.value.payload.Some? then [Block(RequestBodyPayload, Walked(body.value.payload.value))] else []
  }

  function Replacements(body: Option<RequestBody>): seq<ValueSource> {
    if body.Some? then body.value.replacements else []
  }

  function ReplacementBlocks(replacements: seq<ValueSource>): (blocks: seq<Block>)
    ensures |blocks| == |replacements|
  {
    seq(|replacements|, i requires 0 <= i < |replacements| => Block(RequestBodyReplacementValue(i),
        Walked(replacements[i])))
  }

  /** A criterion's nonempty context, then its condition when the type name is known. */
  function CriterionBlocks(c: Criterion, i: nat): seq<Block> {
    (if c.context == "" then [] else [Block(SuccessCriterionContext(i), Plain(c.context, RequiredExpression))]) +
    (match ModeOf(c.kind)
     case Some(mode) => [Block(SuccessCriterionCondition(i), Plain(c.condition, mode))]
     case None => [])
  }

  function CriteriaBlocks(criteria: seq<Criterion>, n: nat): seq<Block>
    requires n <= |criteria|
  {
    if n == 0 then [] else CriteriaBlocks(criteria, n - 1) + CriterionBlocks(criteria[n - 1], n - 1)
  }

  function OutputSupply(output: OutputValue): Supply {
    match output
    case RuntimeExpression(text) => Plain(text, RequiredExpression)
    case SelectorOutput(context) => Walked(Selector(context))
  }

  function OutputBlocks(outputs: seq<(string, OutputValue)>): (blocks: seq<Block>)
    ensures |blocks| == |outputs|
  {
    seq(|outputs|, i requires 0 <= i < |outputs| => Block(Output(outputs[i].0), OutputSupply(outputs[i].1)))
  }

  function CorrelationBlocks(id: Option<string>): seq<Block> {
    match id case Some(text) => [Block(CorrelationId, Plain(text, LiteralOrExpression))] case None => []
  }

  function StepBlocks(w: Workflow, stepIndex: nat): seq<Block>
    requires stepIndex < |w.steps|
  {
    var step := w.steps[stepIndex];
    ParameterBlocks(EffectiveStepParameters(w, stepIndex).value)
    + PayloadBlocks(step.body) + ReplacementBlocks(Replacements(step.body))
    + CriteriaBlocks(step.criteria, |step.criteria|)
    + OutputBlocks(step.outputs)
    + CorrelationBlocks(step.correlationId)
  }

  // ----- What each declaration supplies -----

  /** An output is one complete expression, or a selector whose context is one. */
  ghost predicate OutputIs(step: Step, name: string, supply: Supply) {
    exists i :: 0 <= i < |step.outputs| && step.outputs[i].0 == name && IsOutput(step.outputs[i].1, supply)
  }

  ghost predicate IsOutput(output: OutputValue, supply: Supply) {
    if output.SelectorOutput? then supply == Walked(Selector(output.context))
    else supply == Plain(output.text, RequiredExpression)
  }

  /** Simple conditions are parsed whole; those of the other three known types hold embedded expressions. */
  ghost predicate IsConditionMode(kind: string, mode: Mode) {
    if kind == "simple" then mode.SimpleCondition?
    else (kind == "regex" || kind == "jsonpath" || kind == "xpath") && mode.EmbeddedCondition?
  }

  /** `d` is in force for the step and supplies this. */
  ghost predicate Supplies(w: Workflow, stepIndex: nat, d: Declaration, supply: Supply)
    requires stepIndex < |w.steps|
  {
    var step := w.steps[stepIndex];
    match d
    case EffectiveParameterValue(origin) =>
      supply.Walked? && exists p :: InForce(w, stepIndex, origin, p) && supply.source == p.value
    case RequestBodyPayload =>
      step.body.Some? && step.body.value.payload.Some? && supply == Walked(step.body.value.payload.value)
    case RequestBodyReplacementValue(i) =>
      step.body.Some? && i < |step.body.value.replacements| && supply == Walked(step.body.value.replacements[i])
    case SuccessCriterionContext(i) =>
      i < |step.criteria| && step.criteria[i].context != ""
          && supply == Plain(step.criteria[i].context, RequiredExpression)
    case SuccessCriterionCondition(i) =>
      i < |step.criteria| && supply.Plain? && supply.text == step.criteria[i].condition
      && IsConditionMode(step.criteria[i].kind, supply.mode)
    case Output(name) => OutputIs(step, name, supply)
    case CorrelationId => step.correlationId.Some? && supply == Plain(step.correlationId.value, LiteralOrExpression)
  }

  ghost predicate DistinctNames(outputs: seq<(string, OutputValue)>) {
    forall i, j :: 0 <= i < j < |outputs| ==> outputs[i].0 != outputs[j].0
  }

  ghost function Kind(d: Declaration): nat {
    match d
    case EffectiveParameterValue(_) => 0
    case RequestBodyPayload => 1
    case RequestBodyReplacementValue(_) => 2
    case SuccessCriterionContext(_) | SuccessCriterionCondition(_) => 3
    case Output(_) => 4
    case CorrelationId => 5
  }

  ghost predicate NameBefore(outputs: seq<(string, OutputValue)>, a: string, b: string) {
    exists i, j :: 0 <= i < j < |outputs| && outputs[i].0 == a && outputs[j].0 == b
  }

  /**
   * Inventory order: parameters as they take effect, the payload, replacements as authored, criteria with
   * the context before the condition, outputs in the order of the map, and the correlation id.
   */
  ghost predicate Precedes(step: Step, d: Declaration, e: Declaration) {
    Kind(d) < Kind(e) ||
    (Kind(d) == Kind(e) &&
     match d
     case EffectiveParameterValue(origin) => OriginBefore(origin, e.origin)
     case RequestBodyReplacementValue(i) => i < e.index
     case SuccessCriterionContext(i) => i < e.index || (i == e.index && e.SuccessCriterionCondition?)
     case SuccessCriterionCondition(i) => i < e.index
     case Output(name) => NameBefore(step.outputs, name, e.name)
     case RequestBodyPayload | CorrelationId => false)
  }

  ghost predicate InOrder(step: Step, blocks: seq<Block>) {
    forall i, j :: 0 <= i < j < |blocks| ==> Precedes(step, blocks[i].declaration, blocks[j].declaration)
  }

  ghost predicate DistinctDeclarations(blocks: seq<Block>) {
    forall i, j :: 0 <= i < j < |blocks| ==> blocks[i].declaration != blocks[j].declaration
  }

  lemma OrderedAreDistinct(step: Step, blocks: seq<Block>)
    requires DistinctNames(step.outputs) && InOrder(step, blocks)
    ensures DistinctDeclarations(blocks)
  {
    forall d: Declaration ensures !Precedes(step, d, d) {}
  }

  ghost predicate KindsWithin(blocks: seq<Block>, low: nat, high: nat) {
    forall i :: 0 <= i < |blocks| ==> low <= Kind(blocks[i].declaration) < high
  }

  lemma OrderAppend(step: Step, a: seq<Block>, b: seq<Block>, n: nat)
    requires InOrder(step, a) && InOrder(step, b) && KindsWithin(a, 0, n) && KindsWithin(b, n, n + 1)
    ensures InOrder(step, a + b) && KindsWithin(a + b, 0, n + 1)
  {}

  /** One of the first `n` criteria supplies this. */
  ghost predicate CriterionSupplies(criteria: seq<Criterion>, n: nat, b: Block)
    requires n <= |criteria|
  {
    match b.declaration
    case SuccessCriterionContext(i) =>
      i < n && criteria[i].context != "" && b.supply == Plain(criteria[i].context, RequiredExpression)
    case SuccessCriterionCondition(i) =>
      i < n && b.supply.Plain? && b.supply.text == criteria[i].condition
      && IsConditionMode(criteria[i].kind, b.supply.mode)
    case _ => false
  }

  lemma OneMoreCriterion(criteria: seq<Criterion>, n: nat, b: Block)
    requires n < |criteria|
    ensures CriterionSupplies(criteria, n + 1, b) <==>
            CriterionSupplies(criteria, n, b) || b in CriterionBlocks(criteria[n], n)
  {}

  lemma {:induction false} CriteriaBlocksExact(criteria: seq<Criterion>, n: nat, b: Block)
    requires n <= |criteria|
    ensures b in CriteriaBlocks(criteria, n) <==> CriterionSupplies(criteria, n, b)
  {
    if n > 0 {
      hide CriterionSupplies, CriterionBlocks;
      CriteriaBlocksExact(criteria, n - 1, b);
      OneMoreCriterion(criteria, n - 1, b);
    }
  }

  /** A declaration of one of the first `n` criteria. */
  predicate OfCriterion(d: Declaration, n: nat) {
    (d.SuccessCriterionContext? || d.SuccessCriterionCondition?) && d.index < n
  }

  lemma CriterionBlocksOwn(step: Step, c: Criterion, i: nat)
    ensures var own := CriterionBlocks(c, i);
            && InOrder(step, own)
            && forall j :: 0 <= j < |own| ==>
               OfCriterion(own[j].declaration, i + 1)
               && !OfCriterion(own[j].declaration, i)
  {}

  lemma CriteriaBlocksOwn(criteria: seq<Criterion>, n: nat)
    requires n <= |criteria|
    ensures forall i :: 0 <= i < |CriteriaBlocks(criteria, n)| ==>
            OfCriterion(CriteriaBlocks(criteria, n)[i].declaration, n)
  {
    hide CriteriaBlocks;
    forall i | 0 <= i < |CriteriaBlocks(criteria, n)|
      ensures OfCriterion(CriteriaBlocks(criteria, n)[i].declaration, n) {
      CriteriaBlocksExact(criteria, n, CriteriaBlocks(criteria, n)[i]);
    }
  }

  lemma {:induction false} CriteriaBlocksOrdered(step: Step, criteria: seq<Criterion>, n: nat)
    requires n <= |criteria|
    ensures InOrder(step, CriteriaBlocks(criteria, n)) && KindsWithin(CriteriaBlocks(criteria, n), 3, 4)
  {
    if n > 0 {
      hide CriterionBlocks, InOrder, KindsWithin, OfCriterion;
      CriteriaBlocksOrdered(step, criteria, n - 1);
      CriteriaBlocksOwn(criteria, n - 1);
      CriterionBlocksOwn(step, criteria[n - 1], n - 1);
      CriteriaAppend(step, CriteriaBlocks(criteria, n - 1), CriterionBlocks(criteria[n - 1], n - 1), n - 1);
    } else {
      NothingOrdered(step);
    }
  }

  lemma NothingOrdered(step: Step)
    ensures InOrder(step, []) && KindsWithin([], 3, 4)
  {}

  lemma CriteriaAppend(step: Step, before: seq<Block>, own: seq<Block>, n: nat)
    requires InOrder(step, before) && InOrder(step, own) && KindsWithin(before, 3, 4)
    requires forall i :: 0 <= i < |before| ==> OfCriterion(before[i].declaration, n)
    requires forall i :: 0 <= i < |own| ==>
             OfCriterion(own[i].declaration, n + 1)
             && !OfCriterion(own[i].declaration, n)
    ensures InOrder(step, before + own) && KindsWithin(before + own, 3, 4)
  {}

  lemma CriteriaSupply(w: Workflow, stepIndex: nat)
    requires stepIndex < |w.steps|
    ensures var criteria := w.steps[stepIndex].criteria;
            && (forall b :: b in CriteriaBlocks(criteria, |criteria|) <==>
                 (b.declaration.SuccessCriterionContext? || b.declaration.SuccessCriterionCondition?)
                 && Supplies(w, stepIndex, b.declaration, b.supply))
  {
    var criteria := w.steps[stepIndex].criteria;
    hide CriteriaBlocks;
    forall b: Block ensures b in CriteriaBlocks(criteria, |criteria|) <==> CriterionSupplies(criteria, |criteria|, b) {
      CriteriaBlocksExact(criteria, |criteria|, b);
    }
  }

  lemma ParameterGroup(w: Workflow, stepIndex: nat)
    requires stepIndex < |w.steps|
    ensures forall b :: b in ParameterBlocks(EffectiveStepParameters(w, stepIndex).value) <==>
              b.declaration.EffectiveParameterValue? && Supplies(w, stepIndex, b.declaration, b.supply)
  {
    var view := EffectiveStepParameters(w, stepIndex).value;
    EffectiveExact(w, stepIndex);
    hide EffectiveStepParameters, InForce, OriginBefore;
    forall b ensures b in ParameterBlocks(view) <==>
      b.declaration.EffectiveParameterValue?
      && Supplies(w, stepIndex, b.declaration, b.supply) {
      if b in ParameterBlocks(view) {
        var i :| 0 <= i < |view| && ParameterBlocks(view)[i] == b;
        assert view[i] in view;
      }
      if b.declaration.EffectiveParameterValue? && Supplies(w, stepIndex, b.declaration, b.supply) {
        var p :| InForce(w, stepIndex, b.declaration.origin, p) && b.supply.source == p.value;
        var e := Effective(p, b.declaration.origin);
        assert e in view;
        var i :| 0 <= i < |view| && view[i] == e;
        assert ParameterBlocks(view)[i] == b;
      }
    }
  }

  lemma ReplacementGroup(w: Workflow, stepIndex: nat)
    requires stepIndex < |w.steps|
    ensures forall b :: b in ReplacementBlocks(Replacements(w.steps[stepIndex].body)) <==>
              b.declaration.RequestBodyReplacementValue? && Supplies(w, stepIndex, b.declaration, b.supply)
  {
    hide InForce;
    var replacements := Replacements(w.steps[stepIndex].body);
    forall b: Block | b.declaration.RequestBodyReplacementValue? && Supplies(w, stepIndex, b.declaration, b.supply)
      ensures b in ReplacementBlocks(replacements)
    {
      assert ReplacementBlocks(replacements)[b.declaration.index] == b;
    }
  }

  lemma OutputGroup(w: Workflow, stepIndex: nat)
    requires stepIndex < |w.steps| && DistinctNames(w.steps[stepIndex].outputs)
    ensures forall b :: b in OutputBlocks(w.steps[stepIndex].outputs) <==>
              b.declaration.Output? && Supplies(w, stepIndex, b.declaration, b.supply)
  {
    hide Replacements, InForce;
    var outputs := w.steps[stepIndex].outputs;
    forall b: Block | b.declaration.Output? && Supplies(w, stepIndex, b.declaration, b.supply)
      ensures b in OutputBlocks(outputs) {
      var i :| 0 <= i < |outputs| && outputs[i].0 == b.declaration.name && IsOutput(outputs[i].1, b.supply);
      assert OutputBlocks(outputs)[i] == b;
    }
  }

  /** Each group of blocks is in order, and of one kind. */
  lemma GroupsOrdered(w: Workflow, stepIndex: nat)
    requires stepIndex < |w.steps|
    ensures var step := w.steps[stepIndex];
            var p := ParameterBlocks(EffectiveStepParameters(w, stepIndex).value);
            var q, r, o := PayloadBlocks(step.body), ReplacementBlocks(Replacements(step.body)),
              OutputBlocks(step.outputs);
            && InOrder(step, p) && KindsWithin(p, 0, 1) && InOrder(step, q) && KindsWithin(q, 1, 2)
            && InOrder(step, r) && KindsWithin(r, 2, 3) && InOrder(step, o) && KindsWithin(o, 4, 5)
            && InOrder(step, CorrelationBlocks(step.correlationId))
               && KindsWithin(CorrelationBlocks(step.correlationId), 5, 6)
  {
    var step := w.steps[stepIndex];
    var view := EffectiveStepParameters(w, stepIndex).value;
    EffectiveExact(w, stepIndex);
    hide EffectiveStepParameters, InForce;
    forall i, j | 0 <= i < j < |view| ensures OriginBefore(view[i].origin, view[j].origin) {}
    forall i, j | 0 <= i < j < |step.outputs| ensures NameBefore(step.outputs, step.outputs[i].0, step.outputs[j].0) {}
  }

  lemma StepBlocksOrdered(w: Workflow, stepIndex: nat)
    requires stepIndex < |w.steps|
    ensures InOrder(w.steps[stepIndex], StepBlocks(w, stepIndex))
  {
    var step := w.steps[stepIndex];
    GroupsOrdered(w, stepIndex);
    CriteriaBlocksOrdered(step, step.criteria, |step.criteria|);
    var p := ParameterBlocks(EffectiveStepParameters(w, stepIndex).value);
    var r, o := ReplacementBlocks(Replacements(step.body)), OutputBlocks(step.outputs);
    var q, c, k := PayloadBlocks(step.body), CriteriaBlocks(step.criteria, |step.criteria|),
      CorrelationBlocks(step.correlationId);
    hide EffectiveStepParameters, ParameterBlocks, ReplacementBlocks, OutputBlocks, CriteriaBlocks, PayloadBlocks,
      CorrelationBlocks;
    hide Replacements, InOrder, KindsWithin;
    OrderAppend(step, p, q, 1);
    OrderAppend(step, p + q, r, 2);
    OrderAppend(step, p + q + r, c, 3);
    OrderAppend(step, p + q + r + c, o, 4);
    OrderAppend(step, p + q + r + c + o, k, 5);
  }

  /** The blocks are exactly the declarations in force, each once, in inventory order. */
  lemma BlocksExact(w: Workflow, stepIndex: nat)
    requires stepIndex < |w.steps| && DistinctNames(w.steps[stepIndex].outputs)
    ensures forall b :: b in StepBlocks(w, stepIndex) <==> Supplies(w, stepIndex, b.declaration, b.supply)
    ensures InOrder(w.steps[stepIndex], StepBlocks(w, stepIndex)) && DistinctDeclarations(StepBlocks(w, stepIndex))
  {
    StepBlocksOrdered(w, stepIndex);
    OrderedAreDistinct(w.steps[stepIndex], StepBlocks(w, stepIndex));
    BlocksMembers(w, stepIndex);
  }

  lemma BlocksMembers(w: Workflow, stepIndex: nat)
    requires stepIndex < |w.steps| && DistinctNames(w.steps[stepIndex].outputs)
    ensures forall b :: b in StepBlocks(w, stepIndex) <==> Supplies(w, stepIndex, b.declaration, b.supply)
  {
    var step := w.steps[stepIndex];
    ParameterGroup(w, stepIndex);
    ReplacementGroup(w, stepIndex);
    OutputGroup(w, stepIndex);
    CriteriaSupply(w, stepIndex);
    var q, k := PayloadBlocks(step.body), CorrelationBlocks(step.correlationId);
    forall b ensures b in q <==> b.declaration.RequestBodyPayload? && Supplies(w, stepIndex, b.declaration, b.supply) {}
    forall b ensures b in k <==> b.declaration.CorrelationId? && Supplies(w, stepIndex, b.declaration, b.supply) {}
    hide EffectiveStepParameters, ParameterBlocks, ReplacementBlocks, OutputBlocks, CriteriaBlocks, PayloadBlocks,
      CorrelationBlocks;
    hide Replacements, Supplies;
  }

  // ----- The whole inventory -----

  ghost function FollowSupply(admit: Admission, supply: Supply, path: seq<Segment>): Option<Leaf> {
    match supply
    case Walked(source) => FollowSource(admit, source, path)
    case Plain(text, mode) => if path == [] then Some(Leaf(text, mode)) else None
  }

  lemma SupplyExact(admit: Admission, supply: Supply)
    ensures forall f :: f in SupplySites(admit, supply)
                        <==> FollowSupply(admit, supply, f.path) == Some(Leaf(f.text, f.mode))
    ensures Ordered(SupplySites(admit, supply))
  {
    if supply.Walked? {
      SourceExact(admit, supply.source);
    }
  }

  lemma BlockExact(admit: Admission, block: Block)
    ensures forall s :: s in BlockSites(admit, block) <==>
              s.declaration == block.declaration
                  && FollowSupply(admit, block.supply, s.path) == Some(Leaf(s.text, s.mode))
    ensures DistinctPlaces(BlockSites(admit, block))
    ensures forall i, j :: 0 <= i < j < |BlockSites(admit, block)| ==>
              Before(BlockSites(admit, block)[i].path, BlockSites(admit, block)[j].path)
  {
    var found := SupplySites(admit, block.supply);
    SupplyExact(admit, block.supply);
    hide SupplySites, FollowSupply;
    assert forall p: seq<Segment> :: [] + p == p;
    forall s: Site | s.declaration == block.declaration && Found(s.path, s.text, s.mode) in found
      ensures s in BlockSites(admit, block) {
      var i :| 0 <= i < |found| && found[i] == Found(s.path, s.text, s.mode);
      assert BlockSites(admit, block)[i] == s;
    }
  }

  /** No two sites share a declaration and a path. */
  ghost predicate DistinctPlaces(sites: seq<Site>) {
    forall i, j :: 0 <= i < j < |sites| ==>
      sites[i].declaration != sites[j].declaration
      || sites[i].path != sites[j].path
  }

  /** Declarations in inventory order, and the texts of one declaration in stored order. */
  ghost predicate SitesInOrder(step: Step, sites: seq<Site>) {
    forall i, j :: 0 <= i < j < |sites| ==>
      if sites[i].declaration == sites[j].declaration then Before(sites[i].path, sites[j].path)
      else Precedes(step, sites[i].declaration, sites[j].declaration)
  }

  ghost predicate FromBlock(admit: Admission, b: Block, s: Site) {
    s.declaration == b.declaration && FollowSupply(admit, b.supply, s.path) == Some(Leaf(s.text, s.mode))
  }

  lemma {:induction false} AllSitesExact(admit: Admission, step: Step, blocks: seq<Block>)
    requires DistinctDeclarations(blocks) && InOrder(step, blocks)
    ensures forall s :: s in AllSites(admit, blocks) <==> exists b :: b in blocks && FromBlock(admit, b, s)
    ensures DistinctPlaces(AllSites(admit, blocks)) && SitesInOrder(step, AllSites(admit, blocks))
  {
    if blocks != [] {
      hide FromBlock, BlockSites, DistinctPlaces, SitesInOrder, Precedes, Before, DistinctDeclarations, InOrder;
      var last, before := blocks[|blocks| - 1], blocks[..|blocks| - 1];
      assert blocks == before + [last];
      LastBlock(step, before, last);
      AllSitesExact(admit, step, before);
      BlockSitesExact(admit, last);
      var left, right := AllSites(admit, before), BlockSites(admit, last);
      SitesApart(admit, step, before, last, left);
      PlacesAppend(left, right, last.declaration);
      SitesAppend(step, left, right, last.declaration);
      SitesFromBlocks(admit, before, last, left, right);
    }
  }

  /** The last block's declaration comes behind, and differs from, all before it. */
  lemma LastBlock(step: Step, before: seq<Block>, last: Block)
    requires DistinctDeclarations(before + [last]) && InOrder(step, before + [last])
    ensures DistinctDeclarations(before) && InOrder(step, before)
    ensures forall b :: b in before ==>
              b.declaration != last.declaration && Precedes(step, b.declaration, last.declaration)
  {
    hide Precedes;
    var blocks := before + [last];
    assert blocks[|before|] == last;
    assert forall i :: 0 <= i < |before| ==> blocks[i] == before[i];
  }

  lemma BlockSitesExact(admit: Admission, block: Block)
    ensures var sites := BlockSites(admit, block);
            && (forall s :: s in sites <==> FromBlock(admit, block, s))
            && (forall i :: 0 <= i < |sites| ==> sites[i].declaration == block.declaration)
            && DistinctPlaces(sites)
            && forall i, j :: 0 <= i < j < |sites| ==> Before(sites[i].path, sites[j].path)
  {
    BlockExact(admit, block);
    hide BlockSites, FollowSupply, DistinctPlaces, Before;
    forall i | 0 <= i < |BlockSites(admit, block)|
      ensures BlockSites(admit, block)[i].declaration == block.declaration
    {
      assert BlockSites(admit, block)[i] in BlockSites(admit, block);
    }
  }

  lemma SitesApart(admit: Admission, step: Step, before: seq<Block>, last: Block, left: seq<Site>)
    requires forall s :: s in left <==> exists b :: b in before && FromBlock(admit, b, s)
    requires forall b :: b in before ==>
               b.declaration != last.declaration && Precedes(step, b.declaration, last.declaration)
    ensures forall i :: 0 <= i < |left| ==>
              left[i].declaration != last.declaration && Precedes(step, left[i].declaration, last.declaration)
  {
    hide Precedes, FollowSupply;
    forall i | 0 <= i < |left|
      ensures left[i].declaration != last.declaration && Precedes(step, left[i].declaration, last.declaration)
    {
      assert left[i] in left;
    }
  }

  lemma SitesFromBlocks(admit: Admission, before: seq<Block>, last: Block, left: seq<Site>, right: seq<Site>)
    requires forall s :: s in left <==> exists b :: b in before && FromBlock(admit, b, s)
    requires forall s :: s in right <==> FromBlock(admit, last, s)
    ensures forall s :: s in left + right <==> exists b :: b in before + [last] && FromBlock(admit, b, s)
  {
    hide FromBlock;
    forall s ensures (exists b :: b in before + [last] && FromBlock(admit, b, s)) <==>
      (exists b :: b in before && FromBlock(admit, b, s)) || FromBlock(admit, last, s) {
      assert last in before + [last];
    }
  }

  lemma SitesAppend(step: Step, left: seq<Site>, right: seq<Site>, d: Declaration)
    requires SitesInOrder(step, left)
    requires forall j :: 0 <= j < |right| ==> right[j].declaration == d
    requires forall i, j :: 0 <= i < j < |right| ==> Before(right[i].path, right[j].path)
    requires forall i :: 0 <= i < |left| ==> left[i].declaration != d && Precedes(step, left[i].declaration, d)
    ensures SitesInOrder(step, left + right)
  {
    hide Precedes, Before;
  }

  lemma PlacesAppend(left: seq<Site>, right: seq<Site>, d: Declaration)
    requires DistinctPlaces(left) && DistinctPlaces(right)
    requires forall i :: 0 <= i < |left| ==> left[i].declaration != d
    requires forall j :: 0 <= j < |right| ==> right[j].declaration == d
    ensures DistinctPlaces(left + right)
  {}

  /**
   * The inventory of a step: a text is listed, with its mode, under a declaration and a path
   * exactly when the declaration is in force and following the path below what it supplies leads
   * to that text in that mode; no two entries share both; and the entries stand in inventory order.
   */
  lemma InventoryExact(admit: Admission, w: Workflow, stepIndex: nat)
    requires stepIndex < |w.steps| && DistinctNames(w.steps[stepIndex].outputs)
    ensures forall s :: s in AllSites(admit, StepBlocks(w, stepIndex)) <==>
              exists supply :: Supplies(w, stepIndex, s.declaration, supply)
                  && FollowSupply(admit, supply, s.path) == Some(Leaf(s.text, s.mode))
    ensures DistinctPlaces(AllSites(admit, StepBlocks(w, stepIndex)))
    ensures SitesInOrder(w.steps[stepIndex], AllSites(admit, StepBlocks(w, stepIndex)))
  {
    var blocks := StepBlocks(w, stepIndex);
    BlocksExact(w, stepIndex);
    AllSitesExact(admit, w.steps[stepIndex], blocks);
    hide StepBlocks, AllSites, FollowSupply, Supplies;
    forall s ensures (exists b :: b in blocks && FromBlock(admit, b, s)) <==>
      exists supply :: Supplies(w, stepIndex, s.declaration, supply)
          && FollowSupply(admit, supply, s.path) == Some(Leaf(s.text, s.mode))
    {
      if b :| b in blocks && FromBlock(admit, b, s) {
        assert Supplies(w, stepIndex, s.declaration, b.supply);
      }
      if supply :| Supplies(w, stepIndex, s.declaration, supply)
                   && FollowSupply(admit, supply, s.path) == Some(Leaf(s.text, s.mode)) {
        var b := Block(s.declaration, supply);
        assert b in blocks && FromBlock(admit, b, s);
      }
    }
  }

  /** Adds one block's sites behind those of the blocks before it. */
  method VisitBlock(walker: Walker, ghost blocks: seq<Block>, block: Block)
    requires walker.path == [] && walker.sites == AllSites(walker.admit, blocks)
    modifies walker
    ensures walker.path == [] && walker.sites == AllSites(walker.admit, blocks + [block])
  {
    AllSitesAppend(walker.admit, blocks, block);
    match block.supply {
      case Walked(Selector(context)) => walker.PushSelectorContext(context, block.declaration);
      case Walked(Literal(value)) => walker.VisitLiteral(value, block.declaration);
      case Plain(text, mode) => walker.PushSite(text, mode, block.declaration);
    }
  }

  lemma AppendNext<T>(before: seq<T>, group: seq<T>, i: nat)
    requires i < |group|
    ensures before + group[..i] + [group[i]] == before + group[..i + 1]
  {}

  method VisitParameters(walker: Walker, view: seq<Effective>)
    requires walker.path == [] && walker.sites == []
    modifies walker
    ensures walker.path == [] && walker.sites == AllSites(walker.admit, ParameterBlocks(view))
  {
    assert AllSites(walker.admit, []) == [];
    hide AllSites;
    ghost var group := ParameterBlocks(view);
    assert group[..0] == [];
    for i := 0 to |view|
      invariant walker.path == [] && walker.sites == AllSites(walker.admit, group[..i])
    {
      assert group[..i] + [group[i]] == group[..i + 1];
      VisitBlock(walker, group[..i], Block(EffectiveParameterValue(view[i].origin), Walked(view[i].parameter.value)));
    }
    assert group[..|view|] == group;
  }

  method VisitPayload(walker: Walker, ghost before: seq<Block>, body: Option<RequestBody>)
    requires walker.path == [] && walker.sites == AllSites(walker.admit, before)
    modifies walker
    ensures walker.path == [] && walker.sites == AllSites(walker.admit, before + PayloadBlocks(body))
  {
    assert before + [] == before;
    if body.Some? && body.value.payload.Some? {
      VisitBlock(walker, before, Block(RequestBodyPayload, Walked(body.value.payload.value)));
    }
  }

  method VisitReplacements(walker: Walker, ghost before: seq<Block>, replacements: seq<ValueSource>)
    requires walker.path == [] && walker.sites == AllSites(walker.admit, before)
    modifies walker
    ensures walker.path == [] && walker.sites == AllSites(walker.admit, before + ReplacementBlocks(replacements))
  {
    hide AllSites;
    ghost var group := ReplacementBlocks(replacements);
    assert before + group[..0] == before;
    for i := 0 to |replacements|
      invariant walker.path == [] && walker.sites == AllSites(walker.admit, before + group[..i])
    {
      AppendNext(before, group, i);
      VisitBlock(walker, before + group[..i], Block(RequestBodyReplacementValue(i), Walked(replacements[i])));
    }
    assert before + group[..|replacements|] == before + group;
  }

  method VisitCriterion(walker: Walker, ghost before: seq<Block>, criterion: Criterion, i: nat)
    requires walker.path == [] && walker.sites == AllSites(walker.admit, before)
    modifies walker
    ensures walker.path == [] && walker.sites == AllSites(walker.admit, before + CriterionBlocks(criterion, i))
  {
    hide AllSites;
    ghost var done := before;
    if criterion.context != "" {
      var block := Block(SuccessCriterionContext(i), Plain(criterion.context, RequiredExpression));
      VisitBlock(walker, done, block);
      done := done + [block];
    }
    match ModeOf(criterion.kind) {
      case Some(mode) =>
        var block := Block(SuccessCriterionCondition(i), Plain(criterion.condition, mode));
        VisitBlock(walker, done, block);
        done := done + [block];
      case None =>
    }
    assert done == before + CriterionBlocks(criterion, i);
  }

  method VisitCriteria(walker: Walker, ghost before: seq<Block>, criteria: seq<Criterion>)
    requires walker.path == [] && walker.sites == AllSites(walker.admit, before)
    modifies walker
    ensures walker.path == [] && walker.sites == AllSites(walker.admit, before + CriteriaBlocks(criteria, |criteria|))
  {
    hide AllSites, CriterionBlocks;
    assert before + CriteriaBlocks(criteria, 0) == before;
    for i := 0 to |criteria|
      invariant walker.path == [] && walker.sites == AllSites(walker.admit, before + CriteriaBlocks(criteria, i))
    {
      ghost var done, own := CriteriaBlocks(criteria, i), CriterionBlocks(criteria[i], i);
      assert CriteriaBlocks(criteria, i + 1) == done + own;
      assert before + (done + own) == before + done + own;
      VisitCriterion(walker, before + CriteriaBlocks(criteria, i), criteria[i], i);
    }
  }

  method VisitOutputs(walker: Walker, ghost before: seq<Block>, outputs: seq<(string, OutputValue)>)
    requires walker.path == [] && walker.sites == AllSites(walker.admit, before)
    modifies walker
    ensures walker.path == [] && walker.sites == AllSites(walker.admit, before + OutputBlocks(outputs))
  {
    hide AllSites;
    ghost var group := OutputBlocks(outputs);
    assert before + group[..0] == before;
    for i := 0 to |outputs|
      invariant walker.path == [] && walker.sites == AllSites(walker.admit, before + group[..i])
    {
      AppendNext(before, group, i);
      VisitBlock(walker, before + group[..i], Block(Output(outputs[i].0), OutputSupply(outputs[i].1)));
    }
    assert before + group[..|outputs|] == before + group;
  }

  /** `step_expression_sites`: parameters, payload, replacements, criteria, outputs, then `correlationId`. */
  method StepExpressionSites(admit: Admission, w: Workflow, stepIndex: nat) returns (r: Option<seq<Site>>)
    ensures r == if stepIndex < |w.steps| then Some(AllSites(admit, StepBlocks(w, stepIndex))) else None
  {
    hide AllSites, ParameterBlocks, PayloadBlocks, ReplacementBlocks, CriteriaBlocks, OutputBlocks;
    if stepIndex >= |w.steps| {
      return None;
    }
    var step := w.steps[stepIndex];
    var walker := new Walker(admit);
    var view := EffectiveStepParameters(w, stepIndex).value;
    VisitParameters(walker, view);
    ghost var done := ParameterBlocks(view);
    VisitPayload(walker, done, step.body);
    done := done + PayloadBlocks(step.body);
    VisitReplacements(walker, done, Replacements(step.body));
    done := done + ReplacementBlocks(Replacements(step.body));
    VisitCriteria(walker, done, step.criteria);
    done := done + CriteriaBlocks(step.criteria, |step.criteria|);
    VisitOutputs(walker, done, step.outputs);
    done := done + OutputBlocks(step.outputs);
    if step.correlationId.Some? {
      VisitBlock(walker, done, Block(CorrelationId, Plain(step.correlationId.value, LiteralOrExpression)));
    }
    assert step.correlationId.None? ==> done + CorrelationBlocks(step.correlationId) == done;
    return Some(walker.sites);
  }
}
