/** A generated workflow, field by field, from the group it is made of. */
module GeneratedWorkflows {
  import opened Options
  import opened ResourceGrouping
  import opened CrudWorkflow
  import JsonPointer
  import OperationTargets

  // ----- The id field -----

  ghost predicate HasIdProperty(responses: seq<Response>) {
    exists i: nat, k: nat :: FirstIdAt(responses, i, k)
  }

  /** The first id-like property of the create operation's successful responses; else the id parameter; else `id`. */
  ghost predicate IsIdField(g: Group<Operation>, create: PathOp<Operation>, field: string) {
    var responses := create.operation.responses;
    && (forall i: nat, k: nat :: FirstIdAt(responses, i, k) ==> field == responses[i].schema.properties[k])
    && (!HasIdProperty(responses) ==> field == match g.idParam case Some(name) => name case None => "id")
  }

  lemma IdFieldIs(g: Group<Operation>)
    requires g.create.Some?
    ensures IsIdField(g, g.create.value, IdBodyField(g))
  {
    hide IdInResponses;
    var responses := g.create.value.operation.responses;
    forall i: nat, k: nat | FirstIdAt(responses, i, k)
      ensures IdInResponses(responses) == Some(responses[i].schema.properties[k]) {
      FirstIdIsFound(responses, i, k);
    }
    if IdInResponses(responses).Some? {
      var i, k := FoundIsFirstId(responses);
    }
  }

  // ----- The steps -----

  /** The five steps in order. */
  const STEPS: seq<string> := ["create", "list", "read", "update", "delete"]

  ghost function OperationFor(g: Group<Operation>, k: nat): Option<PathOp<Operation>>
    requires k < 5
  {
    [g.create, g.list, g.read, g.update, g.delete][k]
  }

  /** Where the id comes from: the created resource, or the caller. */
  ghost function IdValue(g: Group<Operation>, name: string, field: string): string {
    if g.create.Some? then "$steps." + ("create-" + g.name) + ".outputs." + field else "$inputs." + name
  }

  /** Step `k` for `op`: its id and target, the id parameter on item paths, the id as the output of a creation. */
  ghost predicate IsStep(g: Group<Operation>, sourceName: string, field: string, k: nat, op: PathOp<Operation>,
                         step: Step)
    requires k < 5
  {
    && step.id == STEPS[k] + "-" + g.name
    && OperationTargets.OperationTarget(sourceName, op.path, op.verb, op.operation.operationId) == Ok(step.target)
    && step.parameters ==
       (if k < 2 || g.idParam.None? then []
        else [Parameter(g.idParam.value, InPath, IdValue(g, g.idParam.value, field))])
    && step.outputs == if k == 0 then map[field := "$response.body#/" + JsonPointer.Escape(field)] else map[]
  }

  lemma StepIsExact(g: Group<Operation>, sourceName: string, k: nat, op: PathOp<Operation>)
    requires k < 5 && StepFor(g, sourceName, Slot(STEPS[k], op)).Ok?
    ensures IsStep(g, sourceName, IdBodyField(g), k, op, StepFor(g, sourceName, Slot(STEPS[k], op)).value)
  {
    hide OperationTargets.OperationTarget, IdBodyField, JsonPointer.Escape;
  }

  /** `at` are the steps the group has operations for, in order. */
  ghost predicate AreSteps(g: Group<Operation>, at: seq<nat>) {
    && (forall k: nat {:trigger k in at} :: k in at <==> k < 5 && OperationFor(g, k).Some?)
    && Increasing(at)
  }

  ghost predicate Increasing(at: seq<nat>) {
    forall i, j :: 0 <= i < j < |at| ==> at[i] < at[j]
  }

  ghost predicate AreSlots(g: Group<Operation>, at: seq<nat>, slots: seq<Slot>) {
    |at| == |slots| && forall i :: 0 <= i < |at| ==>
      at[i] < 5 && OperationFor(g, at[i]).Some? && slots[i] == Slot(STEPS[at[i]], OperationFor(g, at[i]).value)
  }

  ghost function StepsUpTo(g: Group<Operation>, n: nat): seq<nat>
    requires n <= 5
  {
    if n == 0 then [] else StepsUpTo(g, n - 1) + (if OperationFor(g, n - 1).Some? then [n - 1] else [])
  }

  ghost function SlotsUpTo(g: Group<Operation>, n: nat): seq<Slot>
    requires n <= 5
  {
    if n == 0 then [] else SlotsUpTo(g, n - 1) + SlotFor(STEPS[n - 1], OperationFor(g, n - 1))
  }

  lemma {:induction false} StepsAre(g: Group<Operation>, n: nat)
    requires n <= 5
    ensures forall k: nat {:trigger k in StepsUpTo(g, n)} :: k in StepsUpTo(g, n) <==> k < n && OperationFor(g, k).Some?
    ensures Increasing(StepsUpTo(g, n))
  {
    if n > 0 {
      hide OperationFor;
      StepsAre(g, n - 1);
      var before := StepsUpTo(g, n - 1);
      forall i | 0 <= i < |before| ensures before[i] < n - 1 {
        assert before[i] in before;
      }
    }
  }

  lemma {:induction false} SlotsMatch(g: Group<Operation>, n: nat)
    requires n <= 5
    ensures AreSlots(g, StepsUpTo(g, n), SlotsUpTo(g, n))
  {
    if n > 0 {
      SlotsMatch(g, n - 1);
      hide OperationFor, AreSlots;
      var at, slots := StepsUpTo(g, n - 1), SlotsUpTo(g, n - 1);
      if OperationFor(g, n - 1).Some? {
        OneMoreSlot(g, at, slots, n - 1);
      }
    }
  }

  lemma OneMoreSlot(g: Group<Operation>, at: seq<nat>, slots: seq<Slot>, k: nat)
    requires AreSlots(g, at, slots) && k < 5 && OperationFor(g, k).Some?
    ensures AreSlots(g, at + [k], slots + SlotFor(STEPS[k], OperationFor(g, k)))
  {
    hide OperationFor;
  }

  lemma SlotsAre(g: Group<Operation>)
    ensures Slots(g) == SlotsUpTo(g, 5)
  {
    hide SlotFor;
    assert SlotsUpTo(g, 1) == SlotFor("create", g.create);
    assert SlotsUpTo(g, 2) == SlotsUpTo(g, 1) + SlotFor("list", g.list);
    assert SlotsUpTo(g, 3) == SlotsUpTo(g, 2) + SlotFor("read", g.read);
    assert SlotsUpTo(g, 4) == SlotsUpTo(g, 3) + SlotFor("update", g.update);
  }

  // ----- The workflow -----

  /** The caller is asked for the credential, and for the id of items that the workflow does not create. */
  ghost predicate AreInputs(g: Group<Operation>, auth: Option<AuthRequirement>, inputs: Option<Inputs>) {
    var credential := if auth.Some? then [auth.value.inputName] else [];
    var id := if g.create.Some? || g.itemPath.None? then []
              else if g.idParam.Some? then [g.idParam.value] else ["id"];
    if credential + id == [] then inputs.None?
    else
      && inputs.Some? && inputs.value.required == credential + id
      && forall name :: name in inputs.value.properties <==> name in inputs.value.required
  }

  ghost predicate AreParameters(auth: Option<AuthRequirement>, parameters: seq<Parameter>) {
    if auth.None? then parameters == []
    else
      |parameters| == 1
      && parameters[0].name == auth.value.paramName && parameters[0].location == auth.value.location
      && parameters[0].value == auth.value.valueExpr
  }

  /** The workflow of a group: one step for each of its operations in order, and the id of what is created. */
  lemma WorkflowExact(g: Group<Operation>, sourceName: string, auth: Option<AuthRequirement>)
    returns (at: seq<nat>, field: string)
    requires WorkflowFor(g, sourceName, auth).Ok?
    ensures g.create.Some? ==> IsIdField(g, g.create.value, field)
    ensures var w := WorkflowFor(g, sourceName, auth).value;
            && w.id == "crud-" + g.name && AreInputs(g, auth, w.inputs) && AreParameters(auth, w.parameters)
            && w.outputs == (if g.create.Some? then map["created_id" := IdValue(g, "", field)] else map[])
            && AreSteps(g, at) && |w.steps| == |at|
            && forall i :: 0 <= i < |at| ==>
                 at[i] < 5 && OperationFor(g, at[i]).Some?
                 && IsStep(g, sourceName, field, at[i], OperationFor(g, at[i]).value, w.steps[i])
  {
    field := IdBodyField(g);
    at := StepsUpTo(g, 5);
    if g.create.Some? {
      IdFieldIs(g);
    }
    WorkflowParts(g, sourceName, auth);
    hide IdBodyField, WorkflowFor, IsIdField, AreInputs, AreParameters, StepsFor;
    StepsAre(g, 5);
    EachStep(g, sourceName, WorkflowFor(g, sourceName, auth).value.steps);
  }

  lemma EachStep(g: Group<Operation>, sourceName: string, steps: seq<Step>)
    requires StepsFor(g, sourceName, Slots(g)) == Ok(steps)
    ensures var at := StepsUpTo(g, 5);
            && |steps| == |at|
            && forall i :: 0 <= i < |at| ==>
                 at[i] < 5 && OperationFor(g, at[i]).Some?
                 && IsStep(g, sourceName, IdBodyField(g), at[i], OperationFor(g, at[i]).value, steps[i])
  {
    SlotsMatch(g, 5);
    SlotsAre(g);
    hide IdBodyField, Slots, StepsFor, StepFor, IsStep, OperationFor, StepsUpTo, SlotsUpTo;
    StepsExact(g, sourceName, Slots(g));
    var at := StepsUpTo(g, 5);
    forall i | 0 <= i < |at|
      ensures at[i] < 5 && OperationFor(g, at[i]).Some?
      ensures IsStep(g, sourceName, IdBodyField(g), at[i], OperationFor(g, at[i]).value, steps[i])
    {
      StepIsExact(g, sourceName, at[i], OperationFor(g, at[i]).value);
    }
  }

  lemma WorkflowParts(g: Group<Operation>, sourceName: string, auth: Option<AuthRequirement>)
    requires WorkflowFor(g, sourceName, auth).Ok?
    ensures var w := WorkflowFor(g, sourceName, auth).value;
            && w.id == "crud-" + g.name && AreInputs(g, auth, w.inputs) && AreParameters(auth, w.parameters)
            && w.outputs == (if g.create.Some? then map["created_id" := IdValue(g, "", IdBodyField(g))] else map[])
            && StepsFor(g, sourceName, Slots(g)) == Ok(w.steps)
  {
    hide StepsFor, Slots, IdBodyField;
  }
}
