/** The references a generated workflow writes, as the Runtime Expression grammar reads them. */
module References {
  import opened Options
  import opened Strings
  import JsonPointer
  import OperationTargets
  import SourceReferences

  datatype Reference =
    | Input(name: string, pointer: Option<string>)
    | StepOutput(stepId: string, output: string, pointer: Option<string>)
    | ResponseBody(pointer: Option<string>)

  /** `identifier`: the characters of `identifier-strict`, and dots. */
  predicate IsIdentifier(s: string) {
    s != "" && forall i :: 0 <= i < |s| ==> s[i] == '.' || SourceReferences.IsIdentifierChar(s[i])
  }

  /** The grammar's `identifier` by its characters: not empty, and each strict or a dot. */
  lemma IdentifierExact(s: string)
    ensures IsIdentifier(s) <==> |s| > 0 && (forall c :: c in s ==> c == '.' || SourceReferences.IsIdentifierChar(c))
  {
    if IsIdentifier(s) {
      forall c | c in s ensures c == '.' || SourceReferences.IsIdentifierChar(c) {
        var i :| 0 <= i < |s| && s[i] == c;
      }
    }
  }

  /** `json-pointer`, which leaves out the braces that delimit embedded expressions. */
  predicate IsReferencePointer(s: string) {
    JsonPointer.IsPointer(s) && '{' !in s && '}' !in s
  }

  /** What follows a keyword; the letters of keywords match in either case. */
  function Behind(text: string, keyword: string): Option<string> {
    if |keyword| <= |text| && OperationTargets.AsciiLower(text[..|keyword|]) == keyword
    then Some(text[|keyword|..])
    else None
  }

  /** `identifier [ "#" json-pointer ]`. */
  function ParseNamed(s: string): Option<(string, Option<string>)> {
    match SplitOnce(s, "#")
    case None => if IsIdentifier(s) then Some((s, None)) else None
    case Some((name, pointer)) =>
      if IsIdentifier(name) && IsReferencePointer(pointer) then Some((name, Some(pointer))) else None
  }

  /** `step-id ".outputs." output-name [ "#" json-pointer ]`, where a step id has no dots. */
  function ParseStepOutput(s: string): Option<Reference> {
    match SplitOnce(s, ".")
    case None => None
    case Some((stepId, rest)) =>
      match Behind(rest, "outputs.")
      case None => None
      case Some(named) =>
        if !SourceReferences.IsIdentifierStrict(stepId) || ParseNamed(named).None? then None
        else Some(StepOutput(stepId, ParseNamed(named).value.0, ParseNamed(named).value.1))
  }

  function ParseBody(s: string): Option<Reference> {
    if s == "" then Some(ResponseBody(None))
    else if s[0] == '#' && IsReferencePointer(s[1..]) then Some(ResponseBody(Some(s[1..])))
    else None
  }

  /** The productions for inputs, step outputs and the response body. */
  function ParseReference(text: string): Option<Reference> {
    if Behind(text, "$inputs.").Some? then
      match ParseNamed(Behind(text, "$inputs.").value)
      case None => None
      case Some((name, pointer)) => Some(Input(name, pointer))
    else if Behind(text, "$steps.").Some? then ParseStepOutput(Behind(text, "$steps.").value)
    else if Behind(text, "$response.body").Some? then ParseBody(Behind(text, "$response.body").value)
    else None
  }

  /** The reference of a value that is an expression, or a text that ends in one embedded expression. */
  function ReferenceIn(value: string): Option<Reference> {
    if "$" <= value then ParseReference(value)
    else
      match SplitOnce(value, "{")
      case None => None
      case Some((_, rest)) => if rest != "" && rest[|rest| - 1] == '}' then ParseReference(rest[..|rest| - 1]) else None
  }

  // ----- What is written reads back -----

  lemma Keyword(keyword: string, rest: string)
    requires OperationTargets.AsciiLower(keyword) == keyword
    ensures Behind(keyword + rest, keyword) == Some(rest)
  {
    assert (keyword + rest)[..|keyword|] == keyword;
  }

  lemma OtherKeyword(text: string, keyword: string, i: nat)
    requires i < |keyword| && i < |text| && !('A' <= text[i] <= 'Z') && text[i] != keyword[i]
    ensures Behind(text, keyword).None?
  {
    if |keyword| <= |text| {
      var lower := OperationTargets.AsciiLower(text[..|keyword|]);
      assert lower[i] == text[i];
    }
  }

  lemma IdentifierHasNoHash(s: string)
    requires IsIdentifier(s)
    ensures '#' !in s
  {}

  lemma NamedReads(name: string)
    ensures ParseNamed(name) == Some((name, None)) <==> IsIdentifier(name)
    ensures ParseNamed(name).Some? ==> ParseNamed(name).value.1.None? ==> ParseNamed(name).value.0 == name
  {
    SplitOnceNone(name, '#');
    if IsIdentifier(name) {
      IdentifierHasNoHash(name);
    }
  }

  /** A name, or a name and a pointer behind the first `#`; the pointer parses and has no brace. */
  lemma NamedExact(s: string, name: string, pointer: Option<string>)
    ensures ParseNamed(s) == Some((name, pointer)) <==>
            IsIdentifier(name)
            && match pointer
               case None => s == name
               case Some(p) =>
                 s == name + "#" + p && JsonPointer.Parse(p).Some? && '{' !in p && '}' !in p
  {
    SplitOnceNone(s, '#');
    if IsIdentifier(name) {
      IdentifierHasNoHash(name);
    }
    hide IsIdentifier, JsonPointer.IsPointer, JsonPointer.Parse, SplitOnce;
    if pointer.Some? {
      JsonPointer.PointersParse(pointer.value);
      if '#' !in name {
        SplitOnceAt(name, "#", pointer.value);
      }
    }
  }

  function InputText(name: string): string {
    "$inputs." + name
  }

  function StepOutputText(stepId: string, output: string): string {
    "$steps." + stepId + ".outputs." + output
  }

  lemma InputParses(name: string)
    ensures ParseReference(InputText(name)) ==
            match ParseNamed(name) case None => None case Some((n, pointer)) => Some(Input(n, pointer))
  {
    hide ParseNamed;
    Keyword("$inputs.", name);
  }

  /** An input reference reads back exactly when the input's name is an identifier. */
  lemma InputReads(name: string, other: string)
    ensures ParseReference(InputText(name)) == Some(Input(other, None)) <==> name == other && IsIdentifier(name)
    ensures ParseReference(InputText(name)).Some? ==> ParseReference(InputText(name)).value.Input?
  {
    hide ParseNamed, ParseReference, IsIdentifier;
    InputParses(name);
    NamedReads(name);
  }

  lemma StepOutputParses(stepId: string, output: string)
    ensures ParseReference(StepOutputText(stepId, output)) == ParseStepOutput(stepId + ".outputs." + output)
  {
    hide ParseNamed, ParseStepOutput;
    var text := StepOutputText(stepId, output);
    assert text == "$steps." + (stepId + ".outputs." + output);
    Keyword("$steps.", stepId + ".outputs." + output);
    assert text[1] == 's';
    OtherKeyword(text, "$inputs.", 1);
  }

  lemma StrictStepParses(stepId: string, output: string)
    requires SourceReferences.IsIdentifierStrict(stepId)
    ensures ParseStepOutput(stepId + ".outputs." + output) ==
            match ParseNamed(output) case None => None case Some((n, pointer)) => Some(StepOutput(stepId, n, pointer))
  {
    hide ParseNamed, SourceReferences.IsIdentifierStrict, SplitOnce;
    SourceReferences.StrictNames(stepId, '.');
    assert stepId + ".outputs." + output == stepId + "." + ("outputs." + output);
    SplitOnceAt(stepId, ".", "outputs." + output);
    Keyword("outputs.", output);
  }

  /** A step output reference reads back exactly when the step id is strict and the output's name an identifier. */
  lemma StepOutputReads(stepId: string, output: string)
    ensures ParseReference(StepOutputText(stepId, output)) == Some(StepOutput(stepId, output, None))
            <==> SourceReferences.IsIdentifierStrict(stepId) && IsIdentifier(output)
    ensures ParseReference(StepOutputText(stepId, output)).Some? ==>
              ParseReference(StepOutputText(stepId, output)).value.StepOutput?
  {
    hide ParseNamed, ParseReference, ParseStepOutput, IsIdentifier, SourceReferences.IsIdentifierStrict;
    var s := stepId + ".outputs." + output;
    StepOutputParses(stepId, output);
    NamedReads(output);
    if SourceReferences.IsIdentifierStrict(stepId) {
      StrictStepParses(stepId, output);
    }
    IsStepOutput(s);
    if ParseStepOutput(s) == Some(StepOutput(stepId, output, None)) {
      ParsedStepOutput(s, stepId, output);
    }
  }

  lemma IsStepOutput(s: string)
    ensures ParseStepOutput(s).Some? ==> ParseStepOutput(s).value.StepOutput?
  {
    hide ParseNamed, SourceReferences.IsIdentifierStrict;
  }

  lemma ParsedStepOutput(s: string, stepId: string, output: string)
    requires ParseStepOutput(s) == Some(StepOutput(stepId, output, None))
    ensures SourceReferences.IsIdentifierStrict(stepId) && IsIdentifier(output)
  {
    hide IsIdentifier, SourceReferences.IsIdentifierStrict;
  }

  /** Without a pointer the whole body is meant. */
  lemma WholeBodyReads()
    ensures ParseReference("$response.body") == Some(ResponseBody(None))
  {
    var text := "$response.body";
    assert text == "$response.body" + "";
    Keyword("$response.body", "");
    assert text[1] == 'r';
    OtherKeyword(text, "$inputs.", 1);
    OtherKeyword(text, "$steps.", 1);
  }

  /** A body reference reads back exactly when its pointer is one of the grammar. */
  lemma BodyReads(pointer: string)
    ensures ParseReference("$response.body#" + pointer) ==
            if IsReferencePointer(pointer) then Some(ResponseBody(Some(pointer))) else None
  {
    hide IsReferencePointer;
    var text := "$response.body#" + pointer;
    assert text == "$response.body" + ("#" + pointer) && ("#" + pointer)[1..] == pointer;
    Keyword("$response.body", "#" + pointer);
    assert text[1] == 'r';
    OtherKeyword(text, "$inputs.", 1);
    OtherKeyword(text, "$steps.", 1);
  }
}
