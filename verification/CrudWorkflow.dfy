/** The workflow generated for a resource group. */
module CrudWorkflow {
  import opened Options
  import opened ResourceGrouping
  import opened References
  import JsonPointer
  import OperationTargets
  import Fragments
  import SourceReferences

  // ----- The id field -----

  /** What a response's JSON schema resolves to. */
  datatype Schema = Unresolved | NotObject | Object(properties: seq<string>)

  /** A response under one status code, or under a range of codes (`None`). */
  datatype Response = Response(status: Option<int>, schema: Schema)

  datatype Operation = Operation(operationId: Option<string>, responses: seq<Response>)

  predicate EndsWith(s: string, suffix: string) {
    |s| >= |suffix| && s[|s| - |suffix|..] == suffix
  }

  predicate LooksLikeId(name: string) {
    name == "id" || EndsWith(name, "Id") || EndsWith(name, "_id") || EndsWith(name, "ID")
  }

  predicate IsSuccess(response: Response) {
    response.status.Some? && 200 <= response.status.value < 300
  }

  function FirstIdName(names: seq<string>): Option<string> {
    if names == [] then None
    else if LooksLikeId(names[0]) then Some(names[0])
    else FirstIdName(names[1..])
  }

  /** The first id-like property of the successful responses; one that does not resolve ends the search. */
  function IdInResponses(responses: seq<Response>): Option<string> {
    if responses == [] then None
    else if !IsSuccess(responses[0]) || responses[0].schema.NotObject? then IdInResponses(responses[1..])
    else if responses[0].schema.Unresolved? then None
    else
      var found := FirstIdName(responses[0].schema.properties);
      if found.Some? then found else IdInResponses(responses[1..])
  }

  /** `id`, or a name that ends in `Id`, `_id` or `ID`. */
  ghost predicate IsIdName(name: string) {
    name == "id" || exists stem :: name == stem + "Id" || name == stem + "_id" || name == stem + "ID"
  }

  lemma LooksLikeIdExact(name: string)
    ensures LooksLikeId(name) <==> IsIdName(name)
  {
    EndsWithExact(name, "Id");
    EndsWithExact(name, "_id");
    EndsWithExact(name, "ID");
    hide EndsWith;
    if LooksLikeId(name) && name != "id" {
      var stem :| name == stem + "Id" || name == stem + "_id" || name == stem + "ID";
    }
  }

  lemma EndsWithExact(s: string, suffix: string)
    ensures EndsWith(s, suffix) <==> exists stem :: s == stem + suffix
  {
    if EndsWith(s, suffix) {
      assert s == s[..|s| - |suffix|] + suffix;
    }
    forall stem | s == stem + suffix ensures EndsWith(s, suffix) {
      assert s[|stem|..] == suffix;
    }
  }

  /** A single status code from 200 up to 299. */
  ghost predicate HasSuccessCode(response: Response) {
    match response.status case None => false case Some(code) => 200 <= code <= 299
  }

  ghost predicate NoId(names: seq<string>) {
    forall k :: 0 <= k < |names| ==> !IsIdName(names[k])
  }

  /** Property `k` of response `i` is the first id-like one, and nothing before it ends the search. */
  ghost predicate FirstIdAt(responses: seq<Response>, i: nat, k: nat) {
    && i < |responses| && HasSuccessCode(responses[i]) && responses[i].schema.Object?
    && k < |responses[i].schema.properties|
    && IsIdName(responses[i].schema.properties[k]) && NoId(responses[i].schema.properties[..k])
    && forall j :: 0 <= j < i && HasSuccessCode(responses[j]) ==>
         responses[j].schema.NotObject? || (responses[j].schema.Object? && NoId(responses[j].schema.properties))
  }

  lemma IdNames()
    ensures forall name {:trigger LooksLikeId(name)} {:trigger IsIdName(name)} :: LooksLikeId(name) <==> IsIdName(name)
  {
    forall name ensures LooksLikeId(name) <==> IsIdName(name) {
      LooksLikeIdExact(name);
    }
  }

  lemma SuccessCodes()
    ensures forall r {:trigger IsSuccess(r)} {:trigger HasSuccessCode(r)} :: IsSuccess(r) <==> HasSuccessCode(r)
  {}

  lemma {:induction false} FirstIdNameExact(names: seq<string>)
    ensures FirstIdName(names).None? <==> NoId(names)
    ensures FirstIdName(names).Some? ==>
              exists k: nat :: k < |names| && names[k] == FirstIdName(names).value && LooksLikeId(names[k])
                  && NoId(names[..k])
  {
    hide LooksLikeId, IsIdName;
    IdNames();
    if names != [] && !LooksLikeId(names[0]) {
      FirstIdNameExact(names[1..]);
      if FirstIdName(names).Some? {
        var k: nat :| k < |names[1..]| && names[1..][k] == FirstIdName(names).value && LooksLikeId(names[1..][k])
          && NoId(names[1..][..k]);
        assert names[..k + 1] == [names[0]] + names[1..][..k];
        assert names[k + 1] == FirstIdName(names).value;
      } else {
        assert names == [names[0]] + names[1..];
      }
    } else if names != [] {
      assert names[0] == FirstIdName(names).value;
    }
  }

  lemma {:induction false} FirstIdIsFound(responses: seq<Response>, i: nat, k: nat)
    requires FirstIdAt(responses, i, k)
    ensures IdInResponses(responses) == Some(responses[i].schema.properties[k])
    decreases i
  {
    hide LooksLikeId, IsIdName, IsSuccess, HasSuccessCode;
    IdNames();
    SuccessCodes();
    if i == 0 {
      FirstIdNameIs(responses[0].schema.properties, k);
    } else {
      assert forall j :: 0 <= j < i - 1 ==> responses[1..][j] == responses[j + 1];
      FirstIdIsFound(responses[1..], i - 1, k);
      if responses[0].schema.Object? {
        FirstIdNameExact(responses[0].schema.properties);
      }
    }
  }

  lemma {:induction false} FirstIdNameIs(names: seq<string>, k: nat)
    requires k < |names| && LooksLikeId(names[k]) && NoId(names[..k])
    ensures FirstIdName(names) == Some(names[k])
    decreases k
  {
    hide LooksLikeId, IsIdName;
    IdNames();
    if k > 0 {
      assert names[..k][0] == names[0];
      assert names[1..][..k - 1] == names[..k][1..];
      FirstIdNameIs(names[1..], k - 1);
    }
  }

  lemma {:induction false} FoundIsFirstId(responses: seq<Response>) returns (i: nat, k: nat)
    requires IdInResponses(responses).Some?
    ensures FirstIdAt(responses, i, k)
  {
    hide LooksLikeId, IsIdName, IsSuccess, HasSuccessCode;
    IdNames();
    SuccessCodes();
    if IsSuccess(responses[0]) && responses[0].schema.Object? && FirstIdName(responses[0].schema.properties).Some? {
      var names := responses[0].schema.properties;
      FirstIdNameExact(names);
      i := 0;
      k :| k < |names| && names[k] == FirstIdName(names).value && LooksLikeId(names[k]) && NoId(names[..k]);
    } else {
      if IsSuccess(responses[0]) && responses[0].schema.Object? {
        FirstIdNameExact(responses[0].schema.properties);
      }
      i, k := FoundIsFirstId(responses[1..]);
      assert forall j :: 0 <= j < i ==> responses[j + 1] == responses[1..][j];
      i := i + 1;
    }
  }

  /** A field is found exactly when there is a first id-like property, and it is that property. */
  lemma IdFieldExact(responses: seq<Response>, field: string)
    ensures IdInResponses(responses) == Some(field) <==>
            exists i: nat, k: nat :: FirstIdAt(responses, i, k) && responses[i].schema.properties[k] == field
  {
    hide IdInResponses, HasSuccessCode, IsIdName;
    if IdInResponses(responses) == Some(field) {
      var i, k := FoundIsFirstId(responses);
      FirstIdIsFound(responses, i, k);
    }
    forall i: nat, k: nat | FirstIdAt(responses, i, k)
      ensures IdInResponses(responses) == Some(responses[i].schema.properties[k]) {
      FirstIdIsFound(responses, i, k);
    }
  }

  method FindIdInResponse(operation: Operation) returns (r: Option<string>)
    ensures r == IdInResponses(operation.responses)
    ensures r.Some? ==> LooksLikeId(r.value)
  {
    var responses := operation.responses;
    for i := 0 to |responses|
      invariant IdInResponses(responses) == IdInResponses(responses[i..])
    {
      var response := responses[i];
      assert responses[i..][0] == response && responses[i..][1..] == responses[i + 1..];
      if !IsSuccess(response) {
        continue;
      }
      match response.schema
      case Unresolved => return None;
      case NotObject =>
      case Object(names) =>
        for k := 0 to |names|
          invariant FirstIdName(names) == FirstIdName(names[k..])
        {
          assert names[k..][0] == names[k] && names[k..][1..] == names[k + 1..];
          if LooksLikeId(names[k]) {
            return Some(names[k]);
          }
        }
    }
    return None;
  }

  function IdParamName(g: Group<Operation>): string {
    if g.idParam.Some? then g.idParam.value else "id"
  }

  function IdBodyField(g: Group<Operation>): string {
    if g.create.Some? && IdInResponses(g.create.value.operation.responses).Some?
    then IdInResponses(g.create.value.operation.responses).value
    else IdParamName(g)
  }

  // ----- Authentication -----

  datatype Location = InHeader | InQuery | InCookie | InPath

  datatype SecurityScheme = ApiKey(location: Location, name: string) | Http(scheme: string) | OtherScheme

  datatype AuthRequirement = AuthRequirement(inputName: string, paramName: string, location: Location,
                                             valueExpr: string)

  /** `first` is the first scheme of the first requirement; a scheme given by reference maps to `None`. */
  function DetectAuth(first: Option<string>, schemes: map<string, Option<SecurityScheme>>): Option<AuthRequirement> {
    if first.None? || first.value !in schemes then None
    else
      match schemes[first.value]
      case Some(ApiKey(location, name)) => Some(AuthRequirement(first.value, name, location, "$inputs." + first.value))
      case Some(Http(scheme)) =>
        if OperationTargets.AsciiLower(scheme) == "bearer" then
          Some(AuthRequirement("token", "Authorization", InHeader, "Bearer {$inputs.token}"))
        else if OperationTargets.AsciiLower(scheme) == "basic" then
          Some(AuthRequirement("credentials", "Authorization", InHeader, "Basic {$inputs.credentials}"))
        else None
      case _ => None
  }

  /** Texts that agree up to the case of ASCII letters, the second being in lower case. */
  ghost predicate IsLowerOf(s: string, lower: string) {
    |s| == |lower| && forall i :: 0 <= i < |s| ==>
      s[i] == lower[i] || ('A' <= s[i] <= 'Z' && s[i] as int + 32 == lower[i] as int)
  }

  ghost predicate AllLower(s: string) {
    forall i :: 0 <= i < |s| ==> !('A' <= s[i] <= 'Z')
  }

  lemma AsciiLowerExact(s: string, lower: string)
    requires AllLower(lower)
    ensures OperationTargets.AsciiLower(s) == lower <==> IsLowerOf(s, lower)
  {
    var t := OperationTargets.AsciiLower(s);
    assert t == lower <==> |t| == |lower| && forall i :: 0 <= i < |t| ==> t[i] == lower[i];
  }

  /** What the scheme sends, and where: a key under its own name, or an authorization header of its kind. */
  lemma DetectAuthExact(first: Option<string>, schemes: map<string, Option<SecurityScheme>>)
    ensures var auth := DetectAuth(first, schemes);
            if first.None? || first.value !in schemes || schemes[first.value].None? then auth.None?
            else match schemes[first.value].value
              case ApiKey(location, name) =>
                auth == Some(AuthRequirement(first.value, name, location, InputText(first.value)))
              case Http(scheme) =>
                if IsLowerOf(scheme, "bearer") then IsAuthorization(auth, "token", "Bearer {$inputs.token}")
                else if IsLowerOf(scheme, "basic") then
                  IsAuthorization(auth, "credentials", "Basic {$inputs.credentials}")
                else auth.None?
              case OtherScheme => auth.None?
  {
    hide OperationTargets.AsciiLower, IsLowerOf;
    if first.Some? && first.value in schemes && schemes[first.value].Some? && schemes[first.value].value.Http? {
      AsciiLowerExact(schemes[first.value].value.scheme, "bearer");
      AsciiLowerExact(schemes[first.value].value.scheme, "basic");
    }
  }

  ghost predicate IsAuthorization(auth: Option<AuthRequirement>, input: string, value: string) {
    && auth.Some? && auth.value.inputName == input && auth.value.valueExpr == value
    && auth.value.paramName == "Authorization" && auth.value.location == InHeader
  }

  // ----- The workflow -----

  datatype Parameter = Parameter(name: string, location: Location, value: string)

  datatype Step = Step(id: string, target: OperationTargets.StepTarget, parameters: seq<Parameter>,
                       outputs: map<string, string>)

  datatype Inputs = Inputs(properties: set<string>, required: seq<string>)

  datatype Workflow = Workflow(
    id: string,
    inputs: Option<Inputs>,
    parameters: seq<Parameter>,
    steps: seq<Step>,
    outputs: map<string, string>)

  function CreatedId(g: Group<Operation>): string {
    StepOutputText("create-" + g.name, IdBodyField(g))
  }

  function BuildStep(stepId: string, op: PathOp<Operation>, sourceName: string,
                     outputIdField: Option<string>): Result<Step, string> {
    match OperationTargets.OperationTarget(sourceName, op.path, op.verb, op.operation.operationId)
    case Err(e) => Err(e)
    case Ok(target) =>
      Ok(Step(stepId, target, [],
              if outputIdField.None? then map[]
              else map[outputIdField.value := "$response.body#/" + JsonPointer.Escape(outputIdField.value)]))
  }

  function IdParameters(g: Group<Operation>): seq<Parameter> {
    if g.idParam.None? then []
    else [Parameter(g.idParam.value, InPath, if g.create.Some? then CreatedId(g) else InputText(IdParamName(g)))]
  }

  // ----- Specification -----

  /** The operations of a group in the order of their steps, each with the prefix of its step id. */
  datatype Slot = Slot(prefix: string, op: PathOp<Operation>)

  function SlotFor(prefix: string, op: Option<PathOp<Operation>>): seq<Slot> {
    if op.Some? then [Slot(prefix, op.value)] else []
  }

  function Slots(g: Group<Operation>): seq<Slot> {
    SlotFor("create", g.create) + SlotFor("list", g.list) + SlotFor("read", g.read)
    + SlotFor("update", g.update) + SlotFor("delete", g.delete)
  }

  predicate OnItem(slot: Slot) {
    slot.prefix == "read" || slot.prefix == "update" || slot.prefix == "delete"
  }

  function StepFor(g: Group<Operation>, sourceName: string, slot: Slot): Result<Step, string> {
    var outputIdField := if slot.prefix == "create" then Some(IdBodyField(g)) else None;
    match BuildStep(slot.prefix + "-" + g.name, slot.op, sourceName, outputIdField)
    case Err(e) => Err(e)
    case Ok(step) => Ok(step.(parameters := if OnItem(slot) then IdParameters(g) else []))
  }

  function StepsFor(g: Group<Operation>, sourceName: string, slots: seq<Slot>): Result<seq<Step>, string> {
    if slots == [] then Ok([])
    else
      match StepsFor(g, sourceName, slots[..|slots| - 1])
      case Err(e) => Err(e)
      case Ok(before) =>
        match StepFor(g, sourceName, slots[|slots| - 1])
        case Err(e) => Err(e)
        case Ok(step) => Ok(before + [step])
  }

  predicate AsksForId(g: Group<Operation>) {
    g.create.None? && g.itemPath.Some?
  }

  function InputNames(g: Group<Operation>, auth: Option<AuthRequirement>): seq<string> {
    (if auth.Some? then [auth.value.inputName] else []) + (if AsksForId(g) then [IdParamName(g)] else [])
  }

  function InputsFor(g: Group<Operation>, auth: Option<AuthRequirement>): Option<Inputs> {
    var names := InputNames(g, auth);
    if names == [] then None else Some(Inputs((set n | n in names), names))
  }

  function AuthParameters(auth: Option<AuthRequirement>): seq<Parameter> {
    if auth.Some? then [Parameter(auth.value.paramName, auth.value.location, auth.value.valueExpr)] else []
  }

  function WorkflowFor(g: Group<Operation>, sourceName: string,
                       auth: Option<AuthRequirement>): Result<Workflow, string> {
    match StepsFor(g, sourceName, Slots(g))
    case Err(e) => Err(e)
    case Ok(steps) =>
      Ok(Workflow("crud-" + g.name, InputsFor(g, auth),
                  AuthParameters(auth), steps, if g.create.Some? then map["created_id" := CreatedId(g)] else map[]))
  }

  lemma StepsAppend(g: Group<Operation>, sourceName: string, slots: seq<Slot>, slot: Slot)
    ensures StepsFor(g, sourceName, slots + [slot]) ==
            match StepsFor(g, sourceName, slots)
            case Err(e) => Err(e)
            case Ok(before) =>
              match StepFor(g, sourceName, slot)
              case Err(e) => Err(e)
              case Ok(step) => Ok(before + [step])
  {
    assert (slots + [slot])[..|slots|] == slots;
  }

  /** Once a step is refused, the whole list is. */
  lemma {:induction false} ErrorStays(g: Group<Operation>, sourceName: string, slots: seq<Slot>, more: seq<Slot>)
    requires StepsFor(g, sourceName, slots).Err?
    ensures StepsFor(g, sourceName, slots + more) == StepsFor(g, sourceName, slots)
  {
    if more == [] {
      assert slots + more == slots;
    } else {
      ErrorStays(g, sourceName, slots, more[..|more| - 1]);
      assert (slots + more)[..|slots + more| - 1] == slots + more[..|more| - 1];
    }
  }

  // ----- `build_workflow` -----

  /** One of the five conditional pushes. */
  method PushStep(g: Group<Operation>, sourceName: string, prefix: string, op: Option<PathOp<Operation>>,
                  ghost done: seq<Slot>, ghost rest: seq<Slot>, steps: seq<Step>)
    returns (r: Result<seq<Step>, string>)
    requires StepsFor(g, sourceName, done) == Ok(steps)
    ensures r == StepsFor(g, sourceName, done + SlotFor(prefix, op))
    ensures r.Err? ==> r == StepsFor(g, sourceName, done + SlotFor(prefix, op) + rest)
  {
    hide StepsFor, OperationTargets.OperationTarget, IdBodyField, CreatedId, InputText;
    if op.None? {
      assert done + SlotFor(prefix, op) == done;
      return Ok(steps);
    }
    StepsAppend(g, sourceName, done, Slot(prefix, op.value));
    var outputIdField := if prefix == "create" then Some(IdBodyField(g)) else None;
    match BuildStep(prefix + "-" + g.name, op.value, sourceName, outputIdField) {
      case Err(e) =>
        ErrorStays(g, sourceName, done + SlotFor(prefix, op), rest);
        return Err(e);
      case Ok(built) =>
        var step := built;
        if prefix == "read" || prefix == "update" || prefix == "delete" {
          if g.idParam.Some? {
            step := step.(parameters := step.parameters + IdParameters(g));
          }
        }
        assert step.parameters == if OnItem(Slot(prefix, op.value)) then IdParameters(g) else [];
        assert StepFor(g, sourceName, Slot(prefix, op.value)) == Ok(step);
        return Ok(steps + [step]);
    }
  }

  lemma AddName(properties: set<string>, required: seq<string>, name: string)
    requires properties == set n | n in required
    ensures properties + {name} == set n | n in required + [name]
  {}

  lemma NamesEmpty(properties: set<string>, required: seq<string>)
    requires properties == set n | n in required
    ensures properties == {} <==> required == []
  {
    assert required != [] ==> required[0] in properties;
  }

  /** The inputs asked for: the credential, and the id of items that are not created. */
  method BuildInputs(g: Group<Operation>, auth: Option<AuthRequirement>) returns (inputs: Option<Inputs>)
    ensures inputs == InputsFor(g, auth)
  {
    hide IdParamName;
    var properties: set<string>, required: seq<string> := {}, [];
    if auth.Some? {
      AddName(properties, required, auth.value.inputName);
      properties := properties + {auth.value.inputName};
      required := required + [auth.value.inputName];
    }
    if g.create.None? {
      if g.itemPath.Some? {
        AddName(properties, required, IdParamName(g));
        properties := properties + {IdParamName(g)};
        required := required + [IdParamName(g)];
      }
    }
    NamesEmpty(properties, required);
    assert required == InputNames(g, auth);
    inputs := if properties == {} then None else Some(Inputs(properties, required));
  }

  /** The five slots in turn, and the inputs, parameters and outputs around them. */
  method BuildWorkflow(g: Group<Operation>, sourceName: string,
                       auth: Option<AuthRequirement>)
    returns (r: Result<Workflow, string>)
    ensures r == WorkflowFor(g, sourceName, auth)
  {
    hide StepsFor, InputsFor, CreatedId, Slots;
    var hasCreate := g.create.Some?;
    var inputs := BuildInputs(g, auth);
    var parameters: seq<Parameter> := [];
    if auth.Some? {
      parameters := parameters + [Parameter(auth.value.paramName, auth.value.location, auth.value.valueExpr)];
    }
    assert parameters == AuthParameters(auth);

    var pushed := BuildSteps(g, sourceName);
    if pushed.Err? {
      return Err(pushed.error);
    }
    var outputs: map<string, string> := map[];
    if hasCreate {
      outputs := outputs["created_id" := CreatedId(g)];
    }
    assert outputs == if hasCreate then map["created_id" := CreatedId(g)] else map[];
    return Ok(Workflow("crud-" + g.name, inputs, parameters, pushed.value, outputs));
  }

  method BuildSteps(g: Group<Operation>, sourceName: string) returns (r: Result<seq<Step>, string>)
    ensures r == StepsFor(g, sourceName, Slots(g))
  {
    hide StepsFor;
    var c, l, e := SlotFor("create", g.create), SlotFor("list", g.list), SlotFor("read", g.read);
    var u, d := SlotFor("update", g.update), SlotFor("delete", g.delete);
    NoSteps(g, sourceName);
    Regroup(c, l, e, u, d);
    r := PushStep(g, sourceName, "create", g.create, [], l + e + u + d, []);
    if r.Err? { return; }
    r := PushStep(g, sourceName, "list", g.list, c, e + u + d, r.value);
    if r.Err? { return; }
    r := PushStep(g, sourceName, "read", g.read, c + l, u + d, r.value);
    if r.Err? { return; }
    r := PushStep(g, sourceName, "update", g.update, c + l + e, d, r.value);
    if r.Err? { return; }
    r := PushStep(g, sourceName, "delete", g.delete, c + l + e + u, [], r.value);
  }

  lemma Regroup<T>(c: seq<T>, l: seq<T>, e: seq<T>, u: seq<T>, d: seq<T>)
    ensures [] + c == c && c + l + e + u + d + [] == c + l + e + u + d
    ensures c + (l + e + u + d) == c + l + e + u + d && c + l + (e + u + d) == c + l + e + u + d
    ensures c + l + e + (u + d) == c + l + e + u + d
  {}

  lemma NoSteps(g: Group<Operation>, sourceName: string)
    ensures StepsFor(g, sourceName, []) == Ok([])
  {}

  // ----- What the steps are -----

  /** One step a slot, in order. */
  lemma {:induction false} StepsExact(g: Group<Operation>, sourceName: string, slots: seq<Slot>)
    requires StepsFor(g, sourceName, slots).Ok?
    ensures |StepsFor(g, sourceName, slots).value| == |slots|
    ensures forall i :: 0 <= i < |slots| ==>
            StepFor(g, sourceName, slots[i]) == Ok(StepsFor(g, sourceName, slots).value[i])
  {
    hide StepFor;
    if slots != [] {
      StepsExact(g, sourceName, slots[..|slots| - 1]);
    }
  }

  /** Refused exactly when there is a step to build and the source name cannot be written in a reference. */
  lemma RefusedExactly(g: Group<Operation>, sourceName: string, auth: Option<AuthRequirement>)
    requires ProperVerbs(g)
    ensures WorkflowFor(g, sourceName, auth).Err?
            <==> StepCount(g) > 0 && !SourceReferences.IsIdentifierStrict(sourceName)
  {
    RefusedSteps(g, sourceName, Slots(g));
  }

  predicate ProperVerbs(g: Group<Operation>) {
    forall i :: 0 <= i < |Slots(g)| ==> OperationTargets.IsMethodName(Slots(g)[i].op.verb)
  }

  lemma {:induction false} RefusedSteps(g: Group<Operation>, sourceName: string, slots: seq<Slot>)
    requires forall i :: 0 <= i < |slots| ==> OperationTargets.IsMethodName(slots[i].op.verb)
    ensures StepsFor(g, sourceName, slots).Err? <==> slots != [] && !SourceReferences.IsIdentifierStrict(sourceName)
  {
    hide OperationTargets.OperationTarget, SourceReferences.IsIdentifierStrict, SourceReferences.ClassifyOperationId;
    hide OperationTargets.ClassifyOperationPath, Fragments.FragmentTokens;
    if slots != [] {
      RefusedSteps(g, sourceName, slots[..|slots| - 1]);
      var op := slots[|slots| - 1].op;
      OperationTargets.TargetRoundTrip(sourceName, op.path, op.verb, op.operation.operationId);
    }
  }

  ghost predicate DistinctIds(steps: seq<Step>) {
    forall i, j :: 0 <= i < j < |steps| ==> steps[i].id != steps[j].id
  }

  // The prefixes in the order of their steps.
  const PREFIXES: seq<string> := ["create", "list", "read", "update", "delete"]

  /** The slots use increasing prefixes among the first `n`, at most once each. */
  ghost predicate Ordered(slots: seq<Slot>, n: nat)
    requires n <= 5
  {
    && (forall i :: 0 <= i < |slots| ==> slots[i].prefix in PREFIXES[..n])
    && (forall i, j :: 0 <= i < j < |slots| ==> slots[i].prefix != slots[j].prefix)
  }

  lemma OrderedStep(slots: seq<Slot>, n: nat, prefix: string, op: Option<PathOp<Operation>>)
    requires n < 5 && prefix == PREFIXES[n] && Ordered(slots, n)
    ensures Ordered(slots + SlotFor(prefix, op), n + 1)
  {
    assert PREFIXES[..n + 1] == PREFIXES[..n] + [PREFIXES[n]];
    assert forall m :: 0 <= m < n ==> PREFIXES[m] != PREFIXES[n];
  }

  lemma SlotsOrdered(g: Group<Operation>)
    ensures Ordered(Slots(g), 5)
  {
    hide Ordered, SlotFor;
    NothingOrdered();
    var c := [] + SlotFor("create", g.create);
    OrderedStep([], 0, "create", g.create);
    var l := c + SlotFor("list", g.list);
    OrderedStep(c, 1, "list", g.list);
    var e := l + SlotFor("read", g.read);
    OrderedStep(l, 2, "read", g.read);
    var u := e + SlotFor("update", g.update);
    OrderedStep(e, 3, "update", g.update);
    OrderedStep(u, 4, "delete", g.delete);
    assert c == SlotFor("create", g.create);
  }

  lemma NothingOrdered()
    ensures Ordered([], 0)
  {}

  /** Step ids differ by their prefix, whatever the resource is called. */
  lemma IdsDistinct(g: Group<Operation>, sourceName: string)
    requires StepsFor(g, sourceName, Slots(g)).Ok?
    ensures DistinctIds(StepsFor(g, sourceName, Slots(g)).value)
  {
    hide Slots, StepFor, StepsFor;
    var slots := Slots(g);
    var steps := StepsFor(g, sourceName, slots).value;
    StepsExact(g, sourceName, slots);
    SlotsOrdered(g);
    forall i, j | 0 <= i < j < |steps| ensures steps[i].id != steps[j].id {
      IdsDiffer(g, sourceName, slots[i], slots[j]);
    }
  }

  lemma IdsDiffer(g: Group<Operation>, sourceName: string, a: Slot, b: Slot)
    requires StepFor(g, sourceName, a).Ok? && StepFor(g, sourceName, b).Ok? && a.prefix != b.prefix
    ensures StepFor(g, sourceName, a).value.id != StepFor(g, sourceName, b).value.id
  {
    hide StepFor;
    StepIs(g, sourceName, a);
    StepIs(g, sourceName, b);
    assert forall p: string :: p + "-" + g.name == p + ("-" + g.name);
    SuffixKept(a.prefix, b.prefix, "-" + g.name);
  }

  lemma SuffixKept(a: string, b: string, suffix: string)
    ensures a + suffix == b + suffix ==> a == b
  {
    if a + suffix == b + suffix {
      assert |a| == |b|;
      assert a == (a + suffix)[..|a|] && b == (b + suffix)[..|b|];
    }
  }

  lemma StepIs(g: Group<Operation>, sourceName: string, slot: Slot)
    requires StepFor(g, sourceName, slot).Ok?
    ensures var step := StepFor(g, sourceName, slot).value;
            && step.id == slot.prefix + "-" + g.name
            && step.parameters == (if OnItem(slot) then IdParameters(g) else [])
            && step.outputs.Keys == (if slot.prefix == "create" then {IdBodyField(g)} else {})
            && Ok(step.target) ==
               OperationTargets.OperationTarget(sourceName, slot.op.path, slot.op.verb, slot.op.operation.operationId)
  {
    hide OperationTargets.OperationTarget, IdBodyField, IdParameters;
  }

  predicate HasItemStep(g: Group<Operation>) {
    g.read.Some? || g.update.Some? || g.delete.Some?
  }

  function CollectionSlots(g: Group<Operation>): (slots: seq<Slot>)
    ensures forall k :: 0 <= k < |slots| ==> !OnItem(slots[k])
    ensures g.create.Some? ==> slots != []
  {
    SlotFor("create", g.create) + SlotFor("list", g.list)
  }

  function ItemPathSlots(g: Group<Operation>): (slots: seq<Slot>)
    ensures forall k :: 0 <= k < |slots| ==> OnItem(slots[k])
    ensures HasItemStep(g) <==> slots != []
  {
    SlotFor("read", g.read) + SlotFor("update", g.update) + SlotFor("delete", g.delete)
  }

  /** The slots that carry the id parameter. */
  lemma ItemSlots(g: Group<Operation>)
    ensures HasItemStep(g) <==> exists k :: 0 <= k < |Slots(g)| && OnItem(Slots(g)[k])
    ensures g.create.Some? ==> Slots(g) != [] && !OnItem(Slots(g)[0])
  {
    var before, items := CollectionSlots(g), ItemPathSlots(g);
    assert Slots(g) == before + items;
    hide *;
    if items != [] {
      assert OnItem(items[0]) && Slots(g)[|before|] == items[0];
    }
  }

  /** One workflow a group, in order; the first refusal is the result. */
  method BuildWorkflows(groups: seq<Group<Operation>>, sourceName: string,
                        auth: Option<AuthRequirement>)
    returns (r: Result<seq<Workflow>, string>)
    ensures r.Ok? ==> |r.value| == |groups| && forall i :: 0 <= i < |groups| ==>
            WorkflowFor(groups[i], sourceName, auth) == Ok(r.value[i])
    ensures r.Err? ==> exists i :: 0 <= i < |groups| && WorkflowFor(groups[i], sourceName, auth) == Err(r.error)
                                   && forall j :: 0 <= j < i ==> WorkflowFor(groups[j], sourceName, auth).Ok?
  {
    hide WorkflowFor;
    var workflows: seq<Workflow> := [];
    for i := 0 to |groups|
      invariant |workflows| == i
      invariant forall j :: 0 <= j < i ==> WorkflowFor(groups[j], sourceName, auth) == Ok(workflows[j])
    {
      var built := BuildWorkflow(groups[i], sourceName, auth);
      if built.Err? {
        return Err(built.error);
      }
      workflows := workflows + [built.value];
    }
    return Ok(workflows);
  }
}
