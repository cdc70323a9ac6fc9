/** What the references of a generated workflow name. */
module CrudScoping {
  import opened Options
  import opened ResourceGrouping
  import opened References
  import opened Strings
  import opened CrudWorkflow
  import OperationTargets
  import SourceReferences

  // ----- Scoping -----

  /** The text reads as an output that one of the first `before` steps declares. */
  ghost predicate NamesOutput(w: Workflow, before: nat, text: string) {
    exists j, output :: 0 <= j < before && j < |w.steps| && output in w.steps[j].outputs
                        && ReferenceIn(text) == Some(StepOutput(w.steps[j].id, output, None))
  }

  predicate ReadsInput(text: string, name: string) {
    ReferenceIn(text) == Some(Input(name, None))
  }

  /** The text reads as a declared input, alone or embedded behind an authentication scheme. */
  ghost predicate NamesInput(w: Workflow, text: string) {
    w.inputs.Some? && exists name :: name in w.inputs.value.properties && ReadsInput(text, name)
  }

  ghost predicate Resolves(w: Workflow, before: nat, text: string) {
    NamesOutput(w, before, text) || NamesInput(w, text)
  }

  ghost predicate StepScoped(w: Workflow, k: nat)
    requires k < |w.steps|
  {
    forall p :: 0 <= p < |w.steps[k].parameters| ==> Resolves(w, k, w.steps[k].parameters[p].value)
  }

  predicate RequiredDeclared(w: Workflow) {
    w.inputs.Some? ==>
      forall i :: 0 <= i < |w.inputs.value.required| ==> w.inputs.value.required[i] in w.inputs.value.properties
  }

  /** Every reference reads as something declared, and declared by an earlier step if by a step. */
  ghost predicate WellScoped(w: Workflow) {
    && (forall k :: 0 <= k < |w.steps| ==> StepScoped(w, k))
    && (forall name :: name in w.outputs ==> NamesOutput(w, |w.steps|, w.outputs[name]))
    && (forall p :: 0 <= p < |w.parameters| ==> NamesInput(w, w.parameters[p].value))
    && RequiredDeclared(w)
    && DistinctIds(w.steps)
  }

  // ----- When the references read back -----

  predicate StrictChars(name: string) {
    forall i :: 0 <= i < |name| ==> SourceReferences.IsIdentifierChar(name[i])
  }

  lemma StrictStepId(name: string)
    ensures SourceReferences.IsIdentifierStrict("create-" + name) <==> StrictChars(name)
  {
    SourceReferences.IdentifierBytesAreChars("create-" + name);
    assert forall i :: 0 <= i < |name| ==> ("create-" + name)[7 + i] == name[i];
  }

  lemma StrictName(name: string)
    requires name != ""
    ensures SourceReferences.IsIdentifierStrict(name) <==> StrictChars(name)
  {
    SourceReferences.IdentifierBytesAreChars(name);
  }

  /** A requirement whose value reads as its own input, if that has a name the grammar admits. */
  ghost predicate ReadsOwnInput(auth: Option<AuthRequirement>) {
    auth.Some? ==>
      forall name :: ReadsInput(auth.value.valueExpr, name)
                     <==> name == auth.value.inputName && IsIdentifier(auth.value.inputName)
  }

  lemma WholeText(text: string)
    requires "$" <= text
    ensures ReferenceIn(text) == ParseReference(text)
  {}

  lemma EmbeddedText(scheme: string, text: string)
    requires scheme != "" && scheme[0] != '$' && '{' !in scheme
    ensures ReferenceIn(scheme + "{" + text + "}") == ParseReference(text)
  {
    hide ParseReference;
    assert scheme + "{" + text + "}" == scheme + "{" + (text + "}");
    SplitOnceAt(scheme, "{", text + "}");
    assert (text + "}")[..|text|] == text;
  }

  predicate IsInputForm(value: string, input: string) {
    || value == InputText(input)
    || value == "Bearer " + "{" + InputText(input) + "}"
    || value == "Basic " + "{" + InputText(input) + "}"
  }

  lemma DetectedForm(first: Option<string>, schemes: map<string, Option<SecurityScheme>>)
    ensures var auth := DetectAuth(first, schemes);
            auth.Some? ==> IsInputForm(auth.value.valueExpr, auth.value.inputName)
  {
    hide OperationTargets.AsciiLower;
    assert "Bearer " + "{" + InputText("token") + "}" == "Bearer {$inputs.token}";
    assert "Basic " + "{" + InputText("credentials") + "}" == "Basic {$inputs.credentials}";
  }

  lemma InputFormReads(value: string, input: string, name: string)
    requires IsInputForm(value, input)
    ensures ReadsInput(value, name) <==> name == input && IsIdentifier(input)
  {
    assert "$" <= InputText(input);
    hide ParseReference, ReferenceIn, IsIdentifier, InputText;
    InputReads(input, name);
    if value == InputText(input) {
      WholeText(value);
    } else if value == "Bearer " + "{" + InputText(input) + "}" {
      EmbeddedText("Bearer ", InputText(input));
    } else {
      EmbeddedText("Basic ", InputText(input));
    }
  }

  lemma AuthReadsOwnInput(first: Option<string>, schemes: map<string, Option<SecurityScheme>>)
    ensures ReadsOwnInput(DetectAuth(first, schemes))
  {
    hide DetectAuth, IsInputForm, ReadsInput, IsIdentifier;
    var auth := DetectAuth(first, schemes);
    DetectedForm(first, schemes);
    if auth.Some? {
      forall name
        ensures ReadsInput(auth.value.valueExpr, name)
                <==> name == auth.value.inputName && IsIdentifier(auth.value.inputName)
      {
        InputFormReads(auth.value.valueExpr, auth.value.inputName, name);
      }
    }
  }

  lemma CreatedIdReads(g: Group<Operation>)
    ensures ReferenceIn(CreatedId(g)) == Some(StepOutput("create-" + g.name, IdBodyField(g), None))
            <==> StrictChars(g.name) && IsIdentifier(IdBodyField(g))
    ensures ReferenceIn(CreatedId(g)).Some? ==> ReferenceIn(CreatedId(g)).value.StepOutput?
  {
    hide ParseReference, IsIdentifier, StrictChars, IdBodyField, SourceReferences.IsIdentifierStrict;
    WholeText(CreatedId(g));
    StepOutputReads("create-" + g.name, IdBodyField(g));
    StrictStepId(g.name);
  }

  /** Only the create step declares an output, and only the id field. */
  lemma CreateOutputs(g: Group<Operation>, sourceName: string, steps: seq<Step>)
    requires StepsFor(g, sourceName, Slots(g)) == Ok(steps) && g.create.Some?
    ensures steps != [] && steps[0].id == "create-" + g.name && IdBodyField(g) in steps[0].outputs
    ensures forall j, output :: 0 <= j < |steps| && output in steps[j].outputs ==>
              steps[j].id == "create-" + g.name && output == IdBodyField(g)
  {
    hide StepFor, StepsFor, IdBodyField, IdParameters, OperationTargets.OperationTarget;
    StepsExact(g, sourceName, Slots(g));
    var slot := Slot("create", g.create.value);
    assert Slots(g)[0] == slot;
    StepIs(g, sourceName, slot);
    hide Slots;
    forall j, output | 0 <= j < |steps| && output in steps[j].outputs
      ensures steps[j].id == "create-" + g.name && output == IdBodyField(g)
    {
      StepIs(g, sourceName, Slots(g)[j]);
    }
  }

  /** The id of the created resource names the create step's output exactly when the grammar admits both names. */
  lemma CreatedIdNamed(g: Group<Operation>, sourceName: string, w: Workflow, before: nat)
    requires StepsFor(g, sourceName, Slots(g)) == Ok(w.steps) && g.create.Some? && before >= 1
    ensures Resolves(w, before, CreatedId(g)) <==> StrictChars(g.name) && IsIdentifier(IdBodyField(g))
    ensures NamesOutput(w, before, CreatedId(g)) <==> StrictChars(g.name) && IsIdentifier(IdBodyField(g))
  {
    hide Slots, StepFor, StepsFor, IdBodyField, ReferenceIn, CreatedId, StrictChars, IsIdentifier;
    CreateOutputs(g, sourceName, w.steps);
    CreatedIdReads(g);
    if StrictChars(g.name) && IsIdentifier(IdBodyField(g)) {
      assert ReferenceIn(CreatedId(g)) == Some(StepOutput(w.steps[0].id, IdBodyField(g), None));
    }
  }

  // ----- When somebody supplies the id -----

  /** Somebody supplies the id: the create step, the caller, or nobody needs it. */
  predicate IdSupplied(g: Group<Operation>, auth: Option<AuthRequirement>) {
    || g.create.Some? || g.itemPath.Some? || g.idParam.None? || !HasItemStep(g)
    || (auth.Some? && auth.value.inputName == g.idParam.value)
  }

  /** The names that go into references are ones the grammar admits there. */
  predicate Readable(g: Group<Operation>, auth: Option<AuthRequirement>) {
    && (auth.Some? ==> IsIdentifier(auth.value.inputName))
    && (g.create.Some? ==> StrictChars(g.name) && IsIdentifier(IdBodyField(g)))
    && (g.create.None? && g.idParam.Some? && HasItemStep(g) ==> IsIdentifier(g.idParam.value))
  }

  lemma InputNamed(g: Group<Operation>, auth: Option<AuthRequirement>, w: Workflow, before: nat)
    requires w.inputs == InputsFor(g, auth) && g.create.None? && g.idParam.Some?
    ensures Resolves(w, before, InputText(g.idParam.value))
            <==> IsIdentifier(g.idParam.value)
                 && (g.itemPath.Some? || (auth.Some? && auth.value.inputName == g.idParam.value))
  {
    var text := InputText(g.idParam.value);
    WholeText(text);
    hide InputText, ParseReference, ReferenceIn, IsIdentifier;
    forall other ensures ReadsInput(text, other) <==> g.idParam.value == other && IsIdentifier(g.idParam.value) {
      InputReads(g.idParam.value, other);
    }
    InputReads(g.idParam.value, "");
    hide ReadsInput;
    var names := InputNames(g, auth);
    if g.idParam.value in names {
      assert g.idParam.value in w.inputs.value.properties;
    }
    assert NamesInput(w, text) <==> g.idParam.value in names && IsIdentifier(g.idParam.value);
  }

  /** What it takes for the id parameter of an item step to resolve. */
  predicate IdResolves(g: Group<Operation>, auth: Option<AuthRequirement>) {
    if g.idParam.None? then true
    else if g.create.Some? then StrictChars(g.name) && IsIdentifier(IdBodyField(g))
    else IsIdentifier(g.idParam.value) && (g.itemPath.Some? || (auth.Some? && auth.value.inputName == g.idParam.value))
  }

  lemma StepScopedExactly(g: Group<Operation>, sourceName: string, auth: Option<AuthRequirement>, w: Workflow, k: nat,
                          onItem: bool)
    requires StepsFor(g, sourceName, Slots(g)) == Ok(w.steps) && w.inputs == InputsFor(g, auth) && k < |w.steps|
    requires w.steps[k].parameters == if onItem then IdParameters(g) else []
    requires onItem && g.create.Some? ==> k >= 1
    ensures StepScoped(w, k) <==> !onItem || IdResolves(g, auth)
  {
    hide StepsFor, Slots, InputsFor, CreatedId, InputText, Resolves, IdBodyField, StrictChars, IsIdentifier;
    if onItem && g.idParam.Some? {
      assert w.steps[k].parameters[0] == IdParameters(g)[0];
      if g.create.None? {
        InputNamed(g, auth, w, k);
      } else {
        CreatedIdNamed(g, sourceName, w, k);
      }
    }
  }

  lemma SlotScoped(g: Group<Operation>, sourceName: string, auth: Option<AuthRequirement>, w: Workflow, k: nat)
    requires StepsFor(g, sourceName, Slots(g)) == Ok(w.steps) && w.inputs == InputsFor(g, auth)
    requires k < |w.steps| == |Slots(g)| && StepFor(g, sourceName, Slots(g)[k]) == Ok(w.steps[k])
    ensures StepScoped(w, k) <==> !OnItem(Slots(g)[k]) || IdResolves(g, auth)
  {
    hide StepsFor, StepFor, Slots, StepScoped, OnItem, HasItemStep, InputsFor, IdResolves, IdParameters;
    ItemSlots(g);
    StepParameters(g, sourceName, Slots(g)[k]);
    StepScopedExactly(g, sourceName, auth, w, k, OnItem(Slots(g)[k]));
  }

  lemma StepParameters(g: Group<Operation>, sourceName: string, slot: Slot)
    requires StepFor(g, sourceName, slot).Ok?
    ensures StepFor(g, sourceName, slot).value.parameters == if OnItem(slot) then IdParameters(g) else []
  {
    hide StepFor, OnItem, IdParameters;
    StepIs(g, sourceName, slot);
  }

  lemma StepsScopedExactly(g: Group<Operation>, sourceName: string, auth: Option<AuthRequirement>, w: Workflow)
    requires StepsFor(g, sourceName, Slots(g)) == Ok(w.steps) && w.inputs == InputsFor(g, auth)
    ensures (forall k :: 0 <= k < |w.steps| ==> StepScoped(w, k)) <==> !HasItemStep(g) || IdResolves(g, auth)
  {
    hide StepsFor, StepFor, Slots, StepScoped, OnItem, HasItemStep, InputsFor, IdResolves;
    StepsExact(g, sourceName, Slots(g));
    ItemSlots(g);
    forall k | 0 <= k < |w.steps| ensures StepScoped(w, k) <==> !OnItem(Slots(g)[k]) || IdResolves(g, auth) {
      SlotScoped(g, sourceName, auth, w, k);
    }
  }

  lemma AuthNamed(g: Group<Operation>, auth: Option<AuthRequirement>, w: Workflow)
    requires w.inputs == InputsFor(g, auth) && auth.Some? && ReadsOwnInput(auth)
    ensures NamesInput(w, auth.value.valueExpr) <==> IsIdentifier(auth.value.inputName)
  {
    hide ReadsInput, IsIdentifier, IdParamName, AsksForId;
    assert auth.value.inputName in InputNames(g, auth);
    assert auth.value.inputName in w.inputs.value.properties;
  }

  lemma OutputsNamed(g: Group<Operation>, sourceName: string, w: Workflow)
    requires StepsFor(g, sourceName, Slots(g)) == Ok(w.steps)
    requires w.outputs == if g.create.Some? then map["created_id" := CreatedId(g)] else map[]
    ensures (forall name :: name in w.outputs ==> NamesOutput(w, |w.steps|, w.outputs[name]))
            <==> (g.create.Some? ==> StrictChars(g.name) && IsIdentifier(IdBodyField(g)))
  {
    hide StepsFor, Slots, CreatedId, NamesOutput, IsIdentifier, StrictChars, IdBodyField, Resolves;
    if g.create.Some? {
      StepsExact(g, sourceName, Slots(g));
      ItemSlots(g);
      CreatedIdNamed(g, sourceName, w, |w.steps|);
      assert w.outputs["created_id"] == CreatedId(g);
    }
  }

  lemma ParametersNamed(g: Group<Operation>, auth: Option<AuthRequirement>, w: Workflow)
    requires w.inputs == InputsFor(g, auth) && w.parameters == AuthParameters(auth) && ReadsOwnInput(auth)
    ensures (forall p :: 0 <= p < |w.parameters| ==> NamesInput(w, w.parameters[p].value))
            <==> (auth.Some? ==> IsIdentifier(auth.value.inputName))
  {
    hide NamesInput, IsIdentifier, InputsFor, ReadsOwnInput;
    if auth.Some? {
      AuthNamed(g, auth, w);
      assert w.parameters[0].value == auth.value.valueExpr;
    }
  }

  lemma RequiredIsDeclared(g: Group<Operation>, auth: Option<AuthRequirement>, w: Workflow)
    requires w.inputs == InputsFor(g, auth)
    ensures RequiredDeclared(w)
  {
    hide InputNames;
  }

  /** A generated workflow is well scoped exactly when somebody supplies the id and the names read back. */
  lemma ScopedExactly(g: Group<Operation>, sourceName: string, auth: Option<AuthRequirement>)
    requires WorkflowFor(g, sourceName, auth).Ok? && ReadsOwnInput(auth)
    ensures WellScoped(WorkflowFor(g, sourceName, auth).value) <==> IdSupplied(g, auth) && Readable(g, auth)
  {
    hide StepsFor, Slots, CreatedId, NamesOutput, StepScoped, NamesInput, DistinctIds, ReadsOwnInput, RequiredDeclared;
    hide IsIdentifier, StrictChars, IdBodyField, HasItemStep, Resolves, InputsFor, AuthParameters;
    var w := WorkflowFor(g, sourceName, auth).value;
    StepsScopedExactly(g, sourceName, auth, w);
    IdsDistinct(g, sourceName);
    OutputsNamed(g, sourceName, w);
    ParametersNamed(g, auth, w);
    RequiredIsDeclared(g, auth, w);
  }

  /** The required list repeats a name exactly when the credential and the id asked for share one. */
  lemma RequiredOnce(g: Group<Operation>, sourceName: string, auth: Option<AuthRequirement>)
    requires WorkflowFor(g, sourceName, auth).Ok? && WorkflowFor(g, sourceName, auth).value.inputs.Some?
    ensures var inputs := WorkflowFor(g, sourceName, auth).value.inputs.value;
            |inputs.required| == |inputs.properties|
            <==> !(auth.Some? && AsksForId(g) && auth.value.inputName == IdParamName(g))
  {
    hide StepsFor, IdParamName;
    var names := InputNames(g, auth);
    if |names| == 2 {
      assert (set n | n in names) == {names[0], names[1]};
    } else {
      assert (set n | n in names) == {names[0]};
    }
  }
}
