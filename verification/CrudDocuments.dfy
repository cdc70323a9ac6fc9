/** The workflows generated for the groups of one document. */
module CrudDocuments {
  import opened Options
  import opened ResourceGrouping
  import opened References
  import opened Strings
  import opened CrudWorkflow
  import opened CrudScoping
  import Fragments
  import JsonPointer
  import OperationTargets
  import SourceReferences

  // ----- Scoping -----

  lemma MethodNames()
    ensures forall verb :: verb in {"GET", "POST", "PUT", "PATCH", "DELETE"} ==> OperationTargets.IsMethodName(verb)
  {}

  lemma VerbsOfItem(item: PathItem<Operation>, i: nat)
    requires i < |OpsOf(item)|
    ensures OpsOf(item)[i].verb in {"GET", "POST", "PUT", "PATCH", "DELETE"}
  {}

  lemma {:induction false} CollectedVerbs(doc: seq<PathItem<Operation>>, i: nat)
    requires i < |Collect(doc)|
    ensures Collect(doc)[i].verb in {"GET", "POST", "PUT", "PATCH", "DELETE"}
  {
    hide OpsOf;
    var before := Collect(doc[..|doc| - 1]);
    if i < |before| {
      CollectedVerbs(doc[..|doc| - 1], i);
    } else {
      VerbsOfItem(doc[|doc| - 1], i - |before|);
    }
  }

  lemma SlotFromOps(ops: seq<PathOp<Operation>>, key: string, k: nat)
    requires k < |Slots(GroupFor(ops, key))|
    ensures Slots(GroupFor(ops, key))[k].op in ops
  {
    var collection, items := In(ops, OfCollection(key)), In(ops, OfItem(key));
    hide In, LastWith, FirstWith, Slots, OnItem;
    LastWithIn(collection, "POST");
    LastWithIn(collection, "GET");
    LastWithIn(items, "GET");
    LastWithIn(items, "PUT");
    LastWithIn(items, "DELETE");
    FirstWithIn(items, "PATCH");
    SlotSides(GroupFor(ops, key), k);
    var op := Slots(GroupFor(ops, key))[k].op;
    InExact(ops, OfCollection(key), op);
    InExact(ops, OfItem(key), op);
  }

  lemma SlotVerbs(doc: seq<PathItem<Operation>>, key: string)
    ensures ProperVerbs(GroupFor(Collect(doc), key))
  {
    hide Slots, Collect, GroupFor, OperationTargets.IsMethodName;
    var ops, g := Collect(doc), GroupFor(Collect(doc), key);
    MethodNames();
    forall k | 0 <= k < |Slots(g)| ensures OperationTargets.IsMethodName(Slots(g)[k].op.verb) {
      SlotFromOps(ops, key, k);
      var i :| 0 <= i < |ops| && ops[i] == Slots(g)[k].op;
      CollectedVerbs(doc, i);
    }
  }

  /** Under a strict source name every group builds. */
  lemma GroupBuilds(doc: seq<PathItem<Operation>>, key: string, sourceName: string, auth: Option<AuthRequirement>)
    requires SourceReferences.IsIdentifierStrict(sourceName)
    ensures WorkflowFor(GroupFor(Collect(doc), key), sourceName, auth).Ok?
  {
    hide WorkflowFor, Collect, GroupFor, ProperVerbs;
    SlotVerbs(doc, key);
    RefusedExactly(GroupFor(Collect(doc), key), sourceName, auth);
  }

  /** Every group of a document gives a workflow, well scoped exactly when the names in its references read back. */
  lemma GeneratedScoped(doc: seq<PathItem<Operation>>, groups: seq<Group<Operation>>, g: Group<Operation>,
                        sourceName: string,
                        first: Option<string>, schemes: map<string, Option<SecurityScheme>>)
    requires IsGrouping(Collect(doc), groups) && g in groups && SourceReferences.IsIdentifierStrict(sourceName)
    ensures WorkflowFor(g, sourceName, DetectAuth(first, schemes)).Ok?
    ensures WellScoped(WorkflowFor(g, sourceName, DetectAuth(first, schemes)).value)
            <==> Readable(g, DetectAuth(first, schemes))
    ensures StrictChars(g.name) <==> SourceReferences.IsIdentifierStrict(ResourceName(g.collectionPath))
  {
    hide WorkflowFor, DetectAuth, Slots, Collect, Readable, StrictChars, IsIdentifier;
    GroupBuilds(doc, g.collectionPath, sourceName, DetectAuth(first, schemes));
    GroupWellFormed(Collect(doc), g.collectionPath);
    AuthReadsOwnInput(first, schemes);
    ScopedExactly(g, sourceName, DetectAuth(first, schemes));
    ResourceNameExact(g.collectionPath);
    StrictName(g.name);
  }

  /** Every step's target parses back to the operation of its slot: to its id, or to its path and method. */
  lemma TargetsReadBack(g: Group<Operation>, sourceName: string, k: nat)
    requires StepsFor(g, sourceName, Slots(g)).Ok? && k < |Slots(g)|
    requires OperationTargets.IsMethodName(Slots(g)[k].op.verb)
    ensures k < |StepsFor(g, sourceName, Slots(g)).value|
    ensures var target, op := StepsFor(g, sourceName, Slots(g)).value[k].target, Slots(g)[k].op;
            match target
            case OperationId(v) =>
              op.operation.operationId.Some?
              && SourceReferences.ClassifyOperationId(v) ==
                 SourceReferences.SourceQualified(sourceName, op.operation.operationId.value)
            case OperationPath(v) =>
              OperationTargets.ClassifyOperationPath(v).SourcePointer?
              && OperationTargets.ClassifyOperationPath(v).sourceName == sourceName
              && Fragments.FragmentTokens(OperationTargets.ClassifyOperationPath(v).encodedPointer)
                 == Some(["paths", op.path, OperationTargets.AsciiLower(op.verb)])
  {
    hide StepsFor, StepFor, Slots, OperationTargets.OperationTarget, OperationTargets.ClassifyOperationPath;
    hide SourceReferences.ClassifyOperationId, Fragments.FragmentTokens, OperationTargets.AsciiLower, IdParameters,
      IdBodyField;
    var slot := Slots(g)[k];
    StepsExact(g, sourceName, Slots(g));
    StepIs(g, sourceName, slot);
    OperationTargets.TargetRoundTrip(sourceName, slot.op.path, slot.op.verb, slot.op.operation.operationId);
  }

  lemma {:induction false} EscapeKeeps(s: string, c: char)
    requires c !in "~/01"
    ensures c in JsonPointer.Escape(s) <==> c in s
  {
    if s == "" {
      assert JsonPointer.Escape(s) == "";
    } else {
      JsonPointer.EscapeStep(s[0], s[1..]);
      EscapeKeeps(s[1..], c);
      assert s == [s[0]] + s[1..];
    }
  }

  /**
   * The declared output points at exactly the id field, whatever characters its name has; as an
   * expression it reads back exactly when the name has no brace.
   */
  lemma OutputReadsField(g: Group<Operation>, sourceName: string)
    requires StepsFor(g, sourceName, Slots(g)).Ok? && g.create.Some?
    ensures StepsFor(g, sourceName, Slots(g)).value != []
    ensures var field, pointer := IdBodyField(g), "/" + JsonPointer.Escape(IdBodyField(g));
            && StepsFor(g, sourceName, Slots(g)).value[0].outputs == map[field := "$response.body#" + pointer]
            && JsonPointer.Parse(pointer) == Some([field])
            && ReferenceIn("$response.body#" + pointer) ==
               if '{' in field || '}' in field then None else Some(ResponseBody(Some(pointer)))
  {
    hide StepsFor, IdBodyField, JsonPointer.Escape, JsonPointer.Parse, OperationTargets.OperationTarget, ParseReference;
    var field, slot := IdBodyField(g), Slot("create", g.create.value);
    var pointer := "/" + JsonPointer.Escape(field);
    assert pointer == JsonPointer.Print([field]);
    JsonPointer.ParsePrint([field]);
    JsonPointer.PointersParse(pointer);
    EscapeKeeps(field, '{');
    EscapeKeeps(field, '}');
    BodyReads(pointer);
    WholeText("$response.body#" + pointer);
    StepsExact(g, sourceName, Slots(g));
    assert Slots(g)[0] == slot;
    assert "$response.body#/" + JsonPointer.Escape(field) == "$response.body#" + pointer;
    assert StepFor(g, sourceName, slot).value.outputs == map[field := "$response.body#" + pointer];
  }

  // ----- Path parameters -----

  /** The names between braces in a path. */
  function Templates(path: string): seq<string> {
    match SplitOnce(path, "{")
    case None => []
    case Some((before, rest)) =>
      match SplitOnce(rest, "}")
      case None => []
      case Some((name, after)) =>
        SplitOnceJoins(path, "{");
        SplitOnceJoins(rest, "}");
        [name] + Templates(after)
  }

  /** The step has a path parameter for every name between braces in its own path. */
  ghost predicate FillsPath(step: Step, path: string) {
    forall i :: 0 <= i < |Templates(path)| ==> Supplies(step, Templates(path)[i])
  }

  predicate Supplies(step: Step, name: string) {
    exists p :: 0 <= p < |step.parameters| && step.parameters[p].location == InPath && step.parameters[p].name == name
  }

  predicate AllNamed(names: seq<string>, name: Option<string>) {
    forall i :: 0 <= i < |names| ==> Some(names[i]) == name
  }

  /**
   * A create or list step fills its path exactly when the path has no parameter; a read, update or delete
   * step exactly when all its parameters are called as the one that ends the group's first item path.
   */
  lemma FillsPathExactly(ops: seq<PathOp<Operation>>, key: string, sourceName: string, k: nat)
    requires k < |Slots(GroupFor(ops, key))|
    requires StepFor(GroupFor(ops, key), sourceName, Slots(GroupFor(ops, key))[k]).Ok?
    ensures var g, slot := GroupFor(ops, key), Slots(GroupFor(ops, key))[k];
            && (OnItem(slot) ==> g.itemPath.Some?)
            && (FillsPath(StepFor(g, sourceName, slot).value, slot.op.path)
                <==> AllNamed(Templates(slot.op.path), if OnItem(slot) then TrailingParam(g.itemPath.value) else None))
  {
    hide GroupFor, StepFor, TrailingParam, Slots, OnItem, FillsPath, Templates;
    var g, slot := GroupFor(ops, key), Slots(GroupFor(ops, key))[k];
    GroupWellFormed(ops, key);
    ItemSlots(g);
    StepParameters(g, sourceName, slot);
    FillsByParameters(StepFor(g, sourceName, slot).value, slot.op.path, if OnItem(slot) then g.idParam else None);
  }

  lemma FillsByParameters(step: Step, path: string, name: Option<string>)
    requires name.None? ==> step.parameters == []
    requires name.Some? ==>
             |step.parameters| == 1 && step.parameters[0].location == InPath
             && step.parameters[0].name == name.value
    ensures FillsPath(step, path) <==> AllNamed(Templates(path), name)
  {
    hide Templates;
    forall i | 0 <= i < |Templates(path)|
      ensures Supplies(step, Templates(path)[i]) <==> Some(Templates(path)[i]) == name {
      if name.Some? && name.value == Templates(path)[i] {
        assert step.parameters[0].name == Templates(path)[i];
      }
    }
  }

  // ----- Paths whose parameters are whole segments -----

  predicate IsPlain(segment: string) {
    var inner := if IsParam(segment) then segment[1..|segment| - 1] else segment;
    '{' !in inner && '}' !in inner
  }

  predicate AllPlain(segments: seq<string>) {
    forall i :: 0 <= i < |segments| ==> IsPlain(segments[i])
  }

  function ParamNames(segments: seq<string>): seq<string> {
    if segments == [] then [] else ParamName(segments[0]) + ParamNames(segments[1..])
  }

  function ParamName(segment: string): seq<string> {
    if IsParam(segment) then [segment[1..|segment| - 1]] else []
  }

  lemma {:induction false} CountIsParamNames(segments: seq<string>)
    ensures |ParamNames(segments)| == CountParams(segments)
  {
    if segments != [] {
      CountIsParamNames(segments[1..]);
    }
  }

  lemma TemplatesNone(text: string)
    requires '{' !in text
    ensures Templates(text) == []
  {
    SplitOnceNone(text, '{');
  }

  lemma TemplatesFrom(before: string, rest: string)
    requires '{' !in before
    ensures Templates(before + "{" + rest) ==
            match SplitOnce(rest, "}") case None => [] case Some((name, after)) => [name] + Templates(after)
  {
    SplitOnceAt(before, "{", rest);
  }

  lemma TemplatesSkip(text: string, rest: string)
    requires '{' !in text
    ensures Templates(text + rest) == Templates(rest)
  {
    hide Templates, SplitOnce;
    if '{' in rest {
      SplitOnceNone(rest, '{');
      var (before, after) := SplitOnce(rest, "{").value;
      assert rest == before + "{" + after && text + rest == text + before + "{" + after;
      TemplatesFrom(before, after);
      TemplatesFrom(text + before, after);
    } else {
      TemplatesNone(rest);
      TemplatesNone(text + rest);
    }
  }

  lemma TemplatesParam(name: string, rest: string)
    requires '}' !in name
    ensures Templates("{" + name + "}" + rest) == [name] + Templates(rest)
  {
    hide Templates;
    assert "{" + name + "}" + rest == "" + "{" + (name + "}" + rest);
    TemplatesFrom("", name + "}" + rest);
    SplitOnceAt(name, "}", rest);
  }

  lemma {:induction false} PlainTemplates(segments: seq<string>)
    requires segments != [] && AllPlain(segments)
    ensures Templates(Join(segments, '/')) == ParamNames(segments)
  {
    hide IsPlain, ParamName;
    var first := segments[0];
    assert IsPlain(first);
    if |segments| == 1 {
      assert first + "" == first && segments[1..] == [];
      PlainFirst(first, "");
      SplitOnceNone("", '{');
    } else {
      var rest := Join(segments[1..], '/');
      assert Join(segments, '/') == first + ("/" + rest);
      PlainFirst(first, "/" + rest);
      TemplatesSkip("/", rest);
      PlainTemplates(segments[1..]);
    }
  }

  lemma PlainFirst(segment: string, rest: string)
    requires IsPlain(segment)
    ensures Templates(segment + rest) == ParamName(segment) + Templates(rest)
  {
    if IsParam(segment) {
      var name := segment[1..|segment| - 1];
      assert segment == "{" + name + "}";
      TemplatesParam(name, rest);
    } else {
      TemplatesSkip(segment, rest);
    }
  }

  lemma {:induction false} ParamNamesAppend(a: seq<string>, b: seq<string>)
    ensures ParamNames(a + b) == ParamNames(a) + ParamNames(b)
  {
    hide ParamName;
    if a == [] {
      assert a + b == b;
    } else {
      assert (a + b)[1..] == a[1..] + b;
      ParamNamesAppend(a[1..], b);
    }
  }

  lemma PathTemplates(path: string)
    requires AllPlain(Split(path, '/'))
    ensures |Templates(path)| == CountPathParams(path)
    ensures TrailingParam(path).Some? && CountPathParams(path) < 2 ==> Templates(path) == [TrailingParam(path).value]
  {
    hide Templates, Split, Join, ParamNames, CountParams;
    JoinSplit(path, '/');
    PlainTemplates(Split(path, '/'));
    CountIsParamNames(Split(path, '/'));
    LastParamName(Split(path, '/'));
  }

  lemma LastParamName(segments: seq<string>)
    requires segments != []
    ensures var last := segments[|segments| - 1];
            IsParam(last) && |ParamNames(segments)| < 2 ==> ParamNames(segments) == [last[1..|last| - 1]]
  {
    var n := |segments| - 1;
    assert segments == segments[..n] + [segments[n]];
    ParamNamesAppend(segments[..n], [segments[n]]);
    assert [segments[n]][1..] == [];
  }

  /**
   * Where parameters are whole segments: a create or list step fills its path exactly when the collection
   * path has no parameter, an item step exactly when its own parameter is that of the first item path.
   */
  lemma PlainFillsExactly(ops: seq<PathOp<Operation>>, key: string, sourceName: string, k: nat)
    requires k < |Slots(GroupFor(ops, key))| && AllPlain(Split(Slots(GroupFor(ops, key))[k].op.path, '/'))
    requires StepFor(GroupFor(ops, key), sourceName, Slots(GroupFor(ops, key))[k]).Ok?
    ensures var g, slot := GroupFor(ops, key), Slots(GroupFor(ops, key))[k];
            && (OnItem(slot) ==> g.itemPath.Some?)
            && (FillsPath(StepFor(g, sourceName, slot).value, slot.op.path) <==>
                if OnItem(slot) then TrailingParam(slot.op.path) == TrailingParam(g.itemPath.value)
                else CountPathParams(g.collectionPath) == 0)
  {
    hide GroupFor, StepFor, TrailingParam, Slots, OnItem, FillsPath, Templates, AllPlain, CountPathParams;
    FillsPathExactly(ops, key, sourceName, k);
    SlotBucket(ops, key, k);
    PathTemplates(Slots(GroupFor(ops, key))[k].op.path);
    AllNamedFew(Templates(Slots(GroupFor(ops, key))[k].op.path),
                if GroupFor(ops, key).itemPath.Some? then TrailingParam(GroupFor(ops, key).itemPath.value) else None);
  }

  lemma AllNamedFew(names: seq<string>, name: Option<string>)
    ensures AllNamed(names, None) <==> names == []
    ensures |names| == 1 ==> (AllNamed(names, name) <==> Some(names[0]) == name)
  {
    assert names != [] ==> Some(names[0]) != None;
  }

  /** A slot's operation lies in the bucket its step is for. */
  lemma SlotBucket(ops: seq<PathOp<Operation>>, key: string, k: nat)
    requires k < |Slots(GroupFor(ops, key))|
    ensures var g, slot := GroupFor(ops, key), Slots(GroupFor(ops, key))[k];
            && g.collectionPath == key
            && (if OnItem(slot) then TrailingParam(slot.op.path).Some? && CountPathParams(slot.op.path) < 2
                else slot.op.path == key)
  {
    var g := GroupFor(ops, key);
    var collection, items := In(ops, OfCollection(key)), In(ops, OfItem(key));
    hide In, LastWith, FirstWith, Slots, OnItem;
    LastWithIn(collection, "POST");
    LastWithIn(collection, "GET");
    LastWithIn(items, "GET");
    LastWithIn(items, "PUT");
    LastWithIn(items, "DELETE");
    FirstWithIn(items, "PATCH");
    SlotSides(g, k);
    var op := Slots(g)[k].op;
    InExact(ops, OfCollection(key), op);
    InExact(ops, OfItem(key), op);
  }

  lemma SlotSides(g: Group<Operation>, k: nat)
    requires k < |Slots(g)|
    ensures var slot := Slots(g)[k];
            if OnItem(slot) then Some(slot.op) in {g.read, g.update, g.delete} else Some(slot.op) in {g.create, g.list}
  {
    var before := SlotFor("create", g.create) + SlotFor("list", g.list);
    var items := SlotFor("read", g.read) + SlotFor("update", g.update) + SlotFor("delete", g.delete);
    CollectionSide(g);
    ItemSide(g);
    assert Slots(g) == before + items;
    hide SlotFor, OnItem;
    assert Slots(g)[k] == if k < |before| then before[k] else items[k - |before|];
  }

  lemma CollectionSide(g: Group<Operation>)
    ensures var before := SlotFor("create", g.create) + SlotFor("list", g.list);
            forall i :: 0 <= i < |before| ==> !OnItem(before[i]) && Some(before[i].op) in {g.create, g.list}
  {}

  lemma ItemSide(g: Group<Operation>)
    ensures var items := SlotFor("read", g.read) + SlotFor("update", g.update) + SlotFor("delete", g.delete);
            forall i :: 0 <= i < |items| ==> OnItem(items[i]) && Some(items[i].op) in {g.read, g.update, g.delete}
  {}

  lemma TrailingParamIs(prefix: string, name: string)
    requires '/' !in name
    ensures TrailingParam(prefix + "/" + ("{" + name + "}")) == Some(name)
  {
    var segment := "{" + name + "}";
    SplitAppend(prefix, '/', segment);
    SplitWhole(segment, '/');
    assert prefix + "/" + segment == prefix + ['/'] + segment;
    assert segment[1..|segment| - 1] == name;
  }

  lemma {:induction false} LastSlashIs(prefix: string, segment: string)
    requires '/' !in segment
    ensures LastSlash(prefix + "/" + segment) == Some(|prefix|)
  {
    var path := prefix + "/" + segment;
    if segment != "" {
      LastSlashIs(prefix, segment[..|segment| - 1]);
      assert path[..|path| - 1] == prefix + "/" + segment[..|segment| - 1];
    }
  }

  lemma {:induction false} CountAppend(a: seq<string>, b: seq<string>)
    ensures CountParams(a + b) == CountParams(a) + CountParams(b)
  {
    if a == [] {
      assert a + b == b;
    } else {
      assert (a + b)[1..] == a[1..] + b;
      CountAppend(a[1..], b);
    }
  }

  lemma ItemParams(prefix: string, segment: string)
    requires CountPathParams(prefix) == 0 && '/' !in segment
    ensures CountPathParams(prefix + "/" + segment) <= 1
  {
    hide Split, IsParam;
    SplitAppend(prefix, '/', segment);
    SplitWhole(segment, '/');
    CountAppend(Split(prefix, '/'), [segment]);
    assert prefix + "/" + segment == prefix + ['/'] + segment;
    assert [segment][1..] == [];
  }

  /** An item path under a collection without parameters lies in that collection's bucket. */
  lemma ItemBucket(prefix: string, name: string)
    requires prefix != "" && CountPathParams(prefix) == 0 && '/' !in name
    ensures BucketOf(prefix + "/" + ("{" + name + "}")) == OfItem(prefix)
  {
    hide CountPathParams, TrailingParam, LastSlash;
    var segment := "{" + name + "}";
    var path := prefix + "/" + segment;
    ItemParams(prefix, segment);
    TrailingParamIs(prefix, name);
    LastSlashIs(prefix, segment);
    assert path[..|prefix|] == prefix;
  }

  lemma ReadAndDelete(key: string, a: PathOp<Operation>, b: PathOp<Operation>)
    requires BucketOf(a.path) == BucketOf(b.path) == OfItem(key) && a.verb == "GET" && b.verb == "DELETE"
    ensures Slots(GroupFor([a, b], key)) == [Slot("read", a), Slot("delete", b)]
    ensures GroupFor([a, b], key).itemPath == Some(a.path)
  {
    hide BucketOf;
    assert [a, b] == [a] + [b] && [a] == [] + [a];
    InAppend([a], b, OfItem(key));
    InAppend([], a, OfItem(key));
    InAppend([a], b, OfCollection(key));
    InAppend([], a, OfCollection(key));
    assert In([a, b], OfItem(key)) == [a, b] && In([a, b], OfCollection(key)) == [];
    hide In;
    assert [a, b][..1] == [a] && [a][..0] == [];
    assert LastWith([a], "PUT").None? && LastWith([a], "GET") == Some(a) && FirstWith([a], "PATCH").None?;
    var g := GroupFor([a, b], key);
    assert g.create.None? && g.list.None? && g.read == Some(a) && g.update.None? && g.delete == Some(b);
  }

  lemma StepForOk(g: Group<Operation>, sourceName: string, slot: Slot)
    requires SourceReferences.IsIdentifierStrict(sourceName) && OperationTargets.IsMethodName(slot.op.verb)
    ensures StepFor(g, sourceName, slot).Ok?
  {
    hide OperationTargets.OperationTarget, OperationTargets.ClassifyOperationPath, SourceReferences.ClassifyOperationId;
    hide Fragments.FragmentTokens, IdBodyField, IdParameters;
    OperationTargets.TargetRoundTrip(sourceName, slot.op.path, slot.op.verb, slot.op.operation.operationId);
  }

  /** Items read under one parameter name and deleted under another: the delete step does not fill its own path. */
  lemma OtherName(key: string, a: PathOp<Operation>, b: PathOp<Operation>, sourceName: string)
    requires SourceReferences.IsIdentifierStrict(sourceName)
    requires BucketOf(a.path) == BucketOf(b.path) == OfItem(key) && a.verb == "GET" && b.verb == "DELETE"
    requires AllPlain(Split(b.path, '/')) && TrailingParam(a.path) != TrailingParam(b.path)
    ensures StepFor(GroupFor([a, b], key), sourceName, Slot("delete", b)).Ok?
    ensures !FillsPath(StepFor(GroupFor([a, b], key), sourceName, Slot("delete", b)).value, b.path)
  {
    hide Slots, GroupFor, StepFor, FillsPath, BucketOf, TrailingParam, AllPlain;
    ReadAndDelete(key, a, b);
    MethodNames();
    StepForOk(GroupFor([a, b], key), sourceName, Slot("delete", b));
    assert Slots(GroupFor([a, b], key))[1] == Slot("delete", b);
    PlainFillsExactly([a, b], key, sourceName, 1);
  }

  lemma PlainCollection(prefix: string)
    requires prefix != "" && '/' !in prefix && !IsParam(prefix)
    ensures CountPathParams("/" + prefix) == 0 && Split("/" + prefix, '/') == ["", prefix]
  {
    SplitWhole(prefix, '/');
    SplitPiece("", '/', prefix);
    assert "" + ['/'] + prefix == "/" + prefix;
    assert [""] + [prefix] == ["", prefix];
    NoParams(["", prefix]);
  }

  lemma {:induction false} NoParams(segments: seq<string>)
    requires forall i :: 0 <= i < |segments| ==> !IsParam(segments[i])
    ensures CountParams(segments) == 0
  {
    if segments != [] {
      NoParams(segments[1..]);
    }
  }

  lemma PlainItem(prefix: string, name: string)
    requires AllPlain(Split(prefix, '/')) && '/' !in name && '{' !in name && '}' !in name
    ensures AllPlain(Split(prefix + "/" + ("{" + name + "}"), '/'))
  {
    var segment := "{" + name + "}";
    SplitAppend(prefix, '/', segment);
    SplitWhole(segment, '/');
    assert prefix + "/" + segment == prefix + ['/'] + segment;
    assert segment[1..|segment| - 1] == name;
  }

  lemma ExamplePaths()
    ensures CountPathParams("/a") == 0 && AllPlain(Split("/a", '/'))
    ensures BucketOf("/a/{id}") == BucketOf("/a/{key}") == OfItem("/a")
    ensures TrailingParam("/a/{id}") == Some("id") && TrailingParam("/a/{key}") == Some("key")
    ensures AllPlain(Split("/a/{key}", '/'))
  {
    hide BucketOf, TrailingParam, CountPathParams, Split, AllPlain;
    PlainCollection("a");
    assert "/" + "a" == "/a" && AllPlain(["", "a"]) by { PlainA(); }
    assert "/a" + "/" + ("{" + "id" + "}") == "/a/{id}" && "/a" + "/" + ("{" + "key" + "}") == "/a/{key}";
    ExampleItem("id");
    ExampleItem("key");
  }

  lemma PlainA()
    ensures "/" + "a" == "/a" && AllPlain(["", "a"])
  {}

  lemma ExampleItem(name: string)
    requires '/' !in name && '{' !in name && '}' !in name
    requires CountPathParams("/a") == 0 && AllPlain(Split("/a", '/'))
    ensures var path := "/a" + "/" + ("{" + name + "}");
            BucketOf(path) == OfItem("/a") && TrailingParam(path) == Some(name) && AllPlain(Split(path, '/'))
  {
    hide BucketOf, TrailingParam, CountPathParams, Split, AllPlain;
    ItemBucket("/a", name);
    TrailingParamIs("/a", name);
    PlainItem("/a", name);
  }

  lemma GetAndDeleteCollected(a: string, b: string, operation: Operation)
    ensures Collect([PathItem(a, Some(Methods(Some(operation), None, None, None, None))),
                     PathItem(b, Some(Methods(None, None, None, None, Some(operation))))])
            == [PathOp(a, "GET", operation), PathOp(b, "DELETE", operation)]
  {
    var x := PathItem(a, Some(Methods(Some(operation), None, None, None, None)));
    var y := PathItem(b, Some(Methods(None, None, None, None, Some(operation))));
    assert [x, y][..1] == [x] && [x][..0] == [];
    assert Collect([x]) == [] + OpsOf(x) && Collect([x, y]) == Collect([x]) + OpsOf(y);
  }

  /** What a document's group with two steps becomes, slot by slot. */
  lemma TwoSteps(doc: seq<PathItem<Operation>>, groups: seq<Group<Operation>>, key: string, sourceName: string,
                 auth: Option<AuthRequirement>)
    requires IsGrouping(Collect(doc), groups) && SourceReferences.IsIdentifierStrict(sourceName)
    requires |Slots(GroupFor(Collect(doc), key))| == 2
    ensures var g := GroupFor(Collect(doc), key);
            var w := WorkflowFor(g, sourceName, auth);
            && g in groups && w.Ok? && |w.value.steps| == 2
            && StepFor(g, sourceName, Slots(g)[0]) == Ok(w.value.steps[0])
            && StepFor(g, sourceName, Slots(g)[1]) == Ok(w.value.steps[1])
  {
    GroupBuilds(doc, key, sourceName, auth);
    var g := GroupFor(Collect(doc), key);
    SlotCount(g);
    assert g.collectionPath == key;
    hide Collect, GroupFor, Slots, StepsFor, StepFor, StepCount, Sorted, InputsFor, CreatedId;
    StepsExact(g, sourceName, Slots(g));
  }

  /** `/a/{id}` read and `/a/{key}` deleted make one workflow, whose delete step lacks `key`. */
  lemma OtherNameExample(operation: Operation, groups: seq<Group<Operation>>, sourceName: string,
                         auth: Option<AuthRequirement>)
    requires IsGrouping(Collect([PathItem("/a/{id}", Some(Methods(Some(operation), None, None, None, None))),
                                 PathItem("/a/{key}", Some(Methods(None, None, None, None, Some(operation))))]),
                        groups)
    requires SourceReferences.IsIdentifierStrict(sourceName)
    ensures exists g :: g in groups && g.collectionPath == "/a" && WorkflowFor(g, sourceName, auth).Ok?
              && |WorkflowFor(g, sourceName, auth).value.steps| == 2
              && !FillsPath(WorkflowFor(g, sourceName, auth).value.steps[1], "/a/{key}")
  {
    var read, delete := PathOp("/a/{id}", "GET", operation), PathOp("/a/{key}", "DELETE", operation);
    var doc := [PathItem("/a/{id}", Some(Methods(Some(operation), None, None, None, None))),
                PathItem("/a/{key}", Some(Methods(None, None, None, None, Some(operation))))];
    hide Collect, BucketOf, TrailingParam, CountPathParams, FillsPath, StepFor, GroupFor, AllPlain, Split, Slots,
      IsGrouping, WorkflowFor, StepsFor;
    GetAndDeleteCollected("/a/{id}", "/a/{key}", operation);
    ExamplePaths();
    ReadAndDelete("/a", read, delete);
    OtherName("/a", read, delete, sourceName);
    TwoSteps(doc, groups, "/a", sourceName, auth);
    GroupPath(Collect(doc), "/a");
  }

  lemma GroupPath(ops: seq<PathOp<Operation>>, key: string)
    ensures GroupFor(ops, key).collectionPath == key
  {}

  lemma CreateAndList(a: PathOp<Operation>, b: PathOp<Operation>)
    requires a.path == b.path && BucketOf(a.path) == OfCollection(a.path) && a.verb == "GET" && b.verb == "POST"
    ensures Slots(GroupFor([a, b], a.path)) == [Slot("create", b), Slot("list", a)]
  {
    var key := a.path;
    hide BucketOf;
    assert [a, b] == [a] + [b] && [a] == [] + [a];
    InAppend([a], b, OfItem(key));
    InAppend([], a, OfItem(key));
    InAppend([a], b, OfCollection(key));
    InAppend([], a, OfCollection(key));
    assert In([a, b], OfCollection(key)) == [a, b] && In([a, b], OfItem(key)) == [];
    hide In;
    assert [a, b][..1] == [a];
    assert LastWith([a], "GET") == Some(a);
    var g := GroupFor([a, b], key);
    assert g.create == Some(b) && g.list == Some(a) && g.read.None? && g.update.None? && g.delete.None?;
  }

  /** A collection path with an inner parameter is created and listed without it. */
  lemma InnerParameter(a: PathOp<Operation>, b: PathOp<Operation>, sourceName: string)
    requires SourceReferences.IsIdentifierStrict(sourceName)
    requires a.path == b.path && a.verb == "GET" && b.verb == "POST" && AllPlain(Split(a.path, '/'))
    requires CountPathParams(a.path) == 1 && TrailingParam(a.path).None?
    ensures var g := GroupFor([a, b], a.path);
            && StepCount(g) == 2 && Slots(g) == [Slot("create", b), Slot("list", a)]
            && StepFor(g, sourceName, Slot("create", b)).Ok? && StepFor(g, sourceName, Slot("list", a)).Ok?
            && !FillsPath(StepFor(g, sourceName, Slot("create", b)).value, b.path)
            && !FillsPath(StepFor(g, sourceName, Slot("list", a)).value, a.path)
  {
    CreateAndList(a, b);
    SlotCount(GroupFor([a, b], a.path));
    MethodNames();
    hide Slots, GroupFor, StepFor, FillsPath, TrailingParam, CountPathParams, AllPlain, StepCount,
      OperationTargets.IsMethodName;
    var g := GroupFor([a, b], a.path);
    StepForOk(g, sourceName, Slot("create", b));
    StepForOk(g, sourceName, Slot("list", a));
    assert Slots(g)[0] == Slot("create", b) && Slots(g)[1] == Slot("list", a);
    PlainFillsExactly([a, b], a.path, sourceName, 0);
    PlainFillsExactly([a, b], a.path, sourceName, 1);
    SlotBucket([a, b], a.path, 0);
  }

  lemma SlotCount(g: Group<Operation>)
    ensures |Slots(g)| == StepCount(g)
  {}

  /** `/users/{id}/posts` listed and created makes one workflow, neither step of which has `id`. */
  lemma InnerParameterExample(operation: Operation, groups: seq<Group<Operation>>, sourceName: string,
                              auth: Option<AuthRequirement>)
    requires IsGrouping(Collect([Both("/users/{id}/posts", operation)]), groups)
    requires SourceReferences.IsIdentifierStrict(sourceName)
    ensures exists g :: g in groups && g.collectionPath == "/users/{id}/posts" && WorkflowFor(g, sourceName, auth).Ok?
              && |WorkflowFor(g, sourceName, auth).value.steps| == 2
              && !FillsPath(WorkflowFor(g, sourceName, auth).value.steps[0], "/users/{id}/posts")
              && !FillsPath(WorkflowFor(g, sourceName, auth).value.steps[1], "/users/{id}/posts")
  {
    var path := "/users/{id}/posts";
    var list, create := PathOp(path, "GET", operation), PathOp(path, "POST", operation);
    hide Collect, TrailingParam, CountPathParams, AllPlain, FillsPath, GroupFor, StepFor, Split, StepCount, Slots,
      IsGrouping, WorkflowFor, StepsFor, Both;
    InnerPath();
    OneCollected(path, operation);
    InnerParameter(list, create, sourceName);
    TwoSteps([Both(path, operation)], groups, path, sourceName, auth);
    GroupPath(Collect([Both(path, operation)]), path);
  }

  lemma OneCollected(path: string, operation: Operation)
    ensures Collect([Both(path, operation)]) == [PathOp(path, "GET", operation), PathOp(path, "POST", operation)]
  {
    BothCollected(path, operation, []);
    assert [] + [Both(path, operation)] == [Both(path, operation)];
    assert Collect<Operation>([]) + [PathOp(path, "GET", operation), PathOp(path, "POST", operation)]
        == [PathOp(path, "GET", operation), PathOp(path, "POST", operation)];
  }

  lemma InnerPath()
    ensures var path := "/users/{id}/posts";
            AllPlain(Split(path, '/')) && CountPathParams(path) == 1 && TrailingParam(path).None?
  {
    hide Split, CountParams, AllPlain, IsParam;
    var path := "/users/{id}/posts";
    assert "/" + "users" + "/" + "{id}" + "/" + "posts" == path;
    SplitThree("users", "{id}", "posts");
    InnerSegments();
    OneParam("", "users", "{id}", "posts");
    assert LastSegment(path) == "posts";
  }

  /** The segments of the path are plain, and only the third is a parameter. */
  lemma InnerSegments()
    ensures !IsParam("") && !IsParam("users") && IsParam("{id}") && !IsParam("posts")
    ensures AllPlain(["", "users", "{id}", "posts"])
  {
    assert "{id}"[1..3] == "id";
    assert IsPlain("") && IsPlain("users") && IsPlain("{id}") && IsPlain("posts");
    hide IsPlain;
  }

  lemma OneParam(a: string, b: string, c: string, d: string)
    requires !IsParam(a) && !IsParam(b) && IsParam(c) && !IsParam(d)
    ensures CountParams([a, b, c, d]) == 1
  {
    hide IsParam;
    assert [a, b, c, d][1..] == [b, c, d] && [b, c, d][1..] == [c, d] && [c, d][1..] == [d] && [d][1..] == [];
    assert CountParams([d]) == 0;
    assert CountParams([c, d]) == 1 && CountParams([b, c, d]) == 1;
  }

  lemma SplitTwo(a: string, b: string)
    requires '/' !in a && '/' !in b
    ensures Split("/" + a + "/" + b, '/') == ["", a, b]
  {
    hide Split;
    SplitWhole(b, '/');
    SplitPiece(a, '/', b);
    SplitPiece("", '/', a + ['/'] + b);
    assert "" + ['/'] + (a + ['/'] + b) == "/" + a + "/" + b;
    assert [a] + [b] == [a, b] && [""] + [a, b] == ["", a, b];
  }

  lemma SplitThree(a: string, b: string, c: string)
    requires '/' !in a && '/' !in b && '/' !in c
    ensures Split("/" + a + "/" + b + "/" + c, '/') == ["", a, b, c]
  {
    hide Split;
    SplitTwo(a, b);
    SplitAppend("/" + a + "/" + b, '/', c);
    SplitWhole(c, '/');
    assert "/" + a + "/" + b + "/" + c == "/" + a + "/" + b + ['/'] + c;
    assert ["", a, b] + [c] == ["", a, b, c];
  }

  // ----- Workflow ids -----

  /**
   * The workflows of a document have distinct ids exactly when no two of its collection paths are called
   * after the same segment.
   */
  lemma WorkflowIds(doc: seq<PathItem<Operation>>, groups: seq<Group<Operation>>, sourceName: string,
                    auth: Option<AuthRequirement>, workflows: seq<Workflow>)
    requires IsGrouping(Collect(doc), groups) && |workflows| == |groups|
    requires forall i :: 0 <= i < |groups| ==> WorkflowFor(groups[i], sourceName, auth) == Ok(workflows[i])
    ensures (forall i, j :: 0 <= i < j < |workflows| ==> workflows[i].id != workflows[j].id)
            <==> (forall i, j :: 0 <= i < j < |groups| ==>
                    ResourceName(groups[i].collectionPath) != ResourceName(groups[j].collectionPath))
  {
    forall i | 0 <= i < |groups| ensures workflows[i].id == "crud-" + ResourceName(groups[i].collectionPath) {
      assert groups[i] in groups;
      WorkflowId(groups[i], sourceName, auth);
      assert groups[i] == GroupFor(Collect(doc), groups[i].collectionPath);
    }
    hide IsGrouping, Collect, WorkflowFor, ResourceName;
    forall i, j | 0 <= i < |groups| && 0 <= j < |groups|
      ensures workflows[i].id == workflows[j].id
              <==> ResourceName(groups[i].collectionPath) == ResourceName(groups[j].collectionPath)
    {
      assert ("crud-" + ResourceName(groups[i].collectionPath))[5..] == ResourceName(groups[i].collectionPath);
      assert ("crud-" + ResourceName(groups[j].collectionPath))[5..] == ResourceName(groups[j].collectionPath);
    }
  }

  lemma WorkflowId(g: Group<Operation>, sourceName: string, auth: Option<AuthRequirement>)
    requires WorkflowFor(g, sourceName, auth).Ok?
    ensures WorkflowFor(g, sourceName, auth).value.id == "crud-" + g.name
  {
    hide StepsFor, Slots, InputsFor, CreatedId;
  }

  /** A path with a GET and a POST is a group of the document. */
  lemma CollectionGroup(doc: seq<PathItem<Operation>>, groups: seq<Group<Operation>>, a: PathOp<Operation>,
                        b: PathOp<Operation>)
    requires IsGrouping(Collect(doc), groups) && a in Collect(doc) && b in Collect(doc)
    requires a.path == b.path && BucketOf(a.path) == OfCollection(a.path) && a.verb == "GET" && b.verb == "POST"
    ensures GroupFor(Collect(doc), a.path) in groups && GroupFor(Collect(doc), a.path).create.Some?
  {
    var ops := Collect(doc);
    var collection := In(ops, OfCollection(a.path));
    InExact(ops, OfCollection(a.path), a);
    InExact(ops, OfCollection(a.path), b);
    LastWithIs(collection, "GET");
    LastWithIs(collection, "POST");
    assert GroupFor(ops, a.path).collectionPath == a.path;
  }

  function Both(path: string, operation: Operation): PathItem<Operation> {
    PathItem(path, Some(Methods(Some(operation), Some(operation), None, None, None)))
  }

  lemma BothOps(path: string, operation: Operation)
    ensures OpsOf(Both(path, operation)) == [PathOp(path, "GET", operation), PathOp(path, "POST", operation)]
  {}

  lemma BothCollected(path: string, operation: Operation, before: seq<PathItem<Operation>>)
    ensures Collect(before + [Both(path, operation)])
            == Collect(before) + [PathOp(path, "GET", operation), PathOp(path, "POST", operation)]
  {
    hide Both, OpsOf;
    BothOps(path, operation);
    assert (before + [Both(path, operation)])[..|before|] == before;
  }

  /** `/v1/users` and `/v2/users` make two workflows of one id. */
  lemma SameIdExample(operation: Operation, groups: seq<Group<Operation>>, sourceName: string,
                      auth: Option<AuthRequirement>)
    requires IsGrouping(Collect([Both("/v1/users", operation), Both("/v2/users", operation)]), groups)
    requires SourceReferences.IsIdentifierStrict(sourceName)
    ensures exists i, j :: 0 <= i < |groups| && 0 <= j < |groups| && i != j
              && WorkflowFor(groups[i], sourceName, auth).Ok? && WorkflowFor(groups[j], sourceName, auth).Ok?
              && WorkflowFor(groups[i], sourceName, auth).value.id == WorkflowFor(groups[j], sourceName, auth).value.id
  {
    var doc := [Both("/v1/users", operation), Both("/v2/users", operation)];
    hide Collect, BucketOf, ResourceName, WorkflowFor, IsGrouping, GroupFor, Both;
    UsersPaths();
    ExampleOps(operation);
    UsersGroup(doc, groups, "/v1/users", operation, sourceName, auth);
    UsersGroup(doc, groups, "/v2/users", operation, sourceName, auth);
    assert "/v1/users"[2] != "/v2/users"[2];
    var i :| 0 <= i < |groups| && groups[i] == GroupFor(Collect(doc), "/v1/users");
    var j :| 0 <= j < |groups| && groups[j] == GroupFor(Collect(doc), "/v2/users");
  }

  lemma UsersGroup(doc: seq<PathItem<Operation>>, groups: seq<Group<Operation>>, path: string, operation: Operation,
                   sourceName: string, auth: Option<AuthRequirement>)
    requires IsGrouping(Collect(doc), groups) && SourceReferences.IsIdentifierStrict(sourceName)
    requires PathOp(path, "GET", operation) in Collect(doc) && PathOp(path, "POST", operation) in Collect(doc)
    requires BucketOf(path) == OfCollection(path) && ResourceName(path) == "users"
    ensures var g := GroupFor(Collect(doc), path);
            && g in groups && g.collectionPath == path
            && WorkflowFor(g, sourceName, auth).Ok? && WorkflowFor(g, sourceName, auth).value.id == "crud-" + "users"
  {
    hide Collect, BucketOf, ResourceName, WorkflowFor, IsGrouping;
    CollectionGroup(doc, groups, PathOp(path, "GET", operation), PathOp(path, "POST", operation));
    GroupBuilds(doc, path, sourceName, auth);
    WorkflowId(GroupFor(Collect(doc), path), sourceName, auth);
  }

  lemma ExampleOps(operation: Operation)
    ensures var ops := Collect([Both("/v1/users", operation), Both("/v2/users", operation)]);
            && PathOp("/v1/users", "GET", operation) in ops && PathOp("/v1/users", "POST", operation) in ops
            && PathOp("/v2/users", "GET", operation) in ops && PathOp("/v2/users", "POST", operation) in ops
  {
    hide Collect, Both;
    var v1, v2 := Both("/v1/users", operation), Both("/v2/users", operation);
    assert [v1, v2] == [v1] + [v2] && [v1] == [] + [v1];
    BothCollected("/v1/users", operation, []);
    BothCollected("/v2/users", operation, [v1]);
  }

  lemma UsersPaths()
    ensures BucketOf("/v1/users") == OfCollection("/v1/users") && ResourceName("/v1/users") == "users"
    ensures BucketOf("/v2/users") == OfCollection("/v2/users") && ResourceName("/v2/users") == "users"
  {
    hide BucketOf, ResourceName;
    assert "/" + "v1" + "/" + "users" == "/v1/users" && "/" + "v2" + "/" + "users" == "/v2/users";
    assert IsNaming("users");
    hide IsNaming;
    TwoSegments("v1", "users");
    TwoSegments("v2", "users");
  }

  lemma TwoSegments(a: string, b: string)
    requires '/' !in a && '/' !in b && !IsParam(a) && IsNaming(b)
    ensures var path := "/" + a + "/" + b; BucketOf(path) == OfCollection(path) && ResourceName(path) == b
  {
    var path := "/" + a + "/" + b;
    SplitTwo(a, b);
    assert !IsParam("") && !IsParam(b);
    hide IsParam, Split;
    NoParams(["", a, b]);
    assert NamesAt(["", a, b], 2);
    ResourceNameExact(path);
    hide CountParams, NamesAt, ResourceName;
    assert LastSegment(path) == b;
  }

  // ----- Inputs -----

  lemma ReadAndDeleteCollected(path: string, operation: Operation)
    ensures Collect([PathItem(path, Some(Methods(Some(operation), None, None, None, Some(operation))))])
            == [PathOp(path, "GET", operation), PathOp(path, "DELETE", operation)]
  {
    var item := PathItem(path, Some(Methods(Some(operation), None, None, None, Some(operation))));
    assert [item][..0] == [];
    assert Collect([item]) == [] + OpsOf(item);
  }

  /** An API key scheme named `id`, with items read and deleted but not created: `id` is required twice. */
  lemma RequiredTwiceExample(operation: Operation, sourceName: string)
    requires SourceReferences.IsIdentifierStrict(sourceName)
    ensures var methods := Methods(Some(operation), None, None, None, Some(operation));
            var doc := [PathItem("/a/{id}", Some(methods))];
            var w := WorkflowFor(GroupFor(Collect(doc), "/a"), sourceName,
                                 DetectAuth(Some("id"), map["id" := Some(ApiKey(InHeader, "X-Key"))]));
            w.Ok? && w.value.inputs == Some(Inputs({"id"}, ["id", "id"]))
  {
    var path := "/a/{id}";
    var doc := [PathItem(path, Some(Methods(Some(operation), None, None, None, Some(operation))))];
    var auth := DetectAuth(Some("id"), map["id" := Some(ApiKey(InHeader, "X-Key"))]);
    assert auth.Some? && auth.value.inputName == "id";
    ExamplePaths();
    ReadAndDeleteCollected(path, operation);
    hide DetectAuth, BucketOf, Collect, GroupFor, Split, TrailingParam, CountPathParams;
    GroupBuilds(doc, "/a", sourceName, auth);
    var g := GroupFor(Collect(doc), "/a");
    ReadAndDelete("/a", PathOp(path, "GET", operation), PathOp(path, "DELETE", operation));
    GroupWellFormed(Collect(doc), "/a");
    SlotsWithoutCreate(g);
    TwiceRequired(g, sourceName, auth);
  }

  lemma SlotsWithoutCreate(g: Group<Operation>)
    ensures Slots(g) != [] && Slots(g)[0].prefix == "read" ==> g.create.None?
  {
    assert g.create.Some? ==> Slots(g)[0] == Slot("create", g.create.value);
  }

  lemma TwiceRequired(g: Group<Operation>, sourceName: string, auth: Option<AuthRequirement>)
    requires WorkflowFor(g, sourceName, auth).Ok? && g.create.None? && g.itemPath.Some? && g.idParam.Some?
    requires auth.Some? && auth.value.inputName == g.idParam.value
    ensures var name := g.idParam.value;
            WorkflowFor(g, sourceName, auth).value.inputs == Some(Inputs({name}, [name, name]))
  {
    hide StepsFor, Slots;
    var name := g.idParam.value;
    assert InputNames(g, auth) == [name, name];
    assert (set n | n in [name, name]) == {name};
  }

  // ----- A name the grammar does not admit -----

  /** A resource that can be created, but whose name the grammar does not admit in a step id. */
  lemma NameNotRead(doc: seq<PathItem<Operation>>, path: string, sourceName: string,
                    first: Option<string>, schemes: map<string, Option<SecurityScheme>>)
    requires SourceReferences.IsIdentifierStrict(sourceName)
    requires GroupFor(Collect(doc), path).create.Some? && !StrictChars(ResourceName(path))
    ensures var g := GroupFor(Collect(doc), path);
            var w := WorkflowFor(g, sourceName, DetectAuth(first, schemes));
            w.Ok? && !WellScoped(w.value) && w.value.outputs == map["created_id" := CreatedId(g)]
  {
    hide DetectAuth, Collect, ResourceName, StrictChars, IsIdentifier, WellScoped, Slots, StepsFor, CreatedId;
    var g, auth := GroupFor(Collect(doc), path), DetectAuth(first, schemes);
    assert g.name == ResourceName(path);
    hide GroupFor;
    GroupBuilds(doc, path, sourceName, auth);
    AuthReadsOwnInput(first, schemes);
    ScopedExactly(g, sourceName, auth);
  }

  /** The id created under `/reports.daily` is referred to by a text that is no expression. */
  lemma DottedNameExample(operation: Operation, sourceName: string, first: Option<string>,
                          schemes: map<string, Option<SecurityScheme>>)
    requires SourceReferences.IsIdentifierStrict(sourceName)
    ensures var g := GroupFor(Collect([Both("/reports.daily", operation)]), "/reports.daily");
            var w := WorkflowFor(g, sourceName, DetectAuth(first, schemes));
            && w.Ok? && !WellScoped(w.value)
            && w.value.outputs == map["created_id" := CreatedId(g)] && ReferenceIn(CreatedId(g)).None?
  {
    var doc := [Both("/reports.daily", operation)];
    var g := GroupFor(Collect(doc), "/reports.daily");
    ReportsPath();
    CreatedAt("/reports.daily", operation);
    hide DetectAuth, BucketOf, Collect, Both, ResourceName, StrictChars, ReferenceIn, WellScoped, GroupFor, WorkflowFor;
    NameNotRead(doc, "/reports.daily", sourceName, first, schemes);
    DottedStep(IdBodyField(g));
    assert CreatedId(g) == StepOutputText("create-" + "reports.daily", IdBodyField(g));
  }

  lemma CreatedAt(path: string, operation: Operation)
    requires BucketOf(path) == OfCollection(path)
    ensures var g := GroupFor(Collect([Both(path, operation)]), path);
            g.create == Some(PathOp(path, "POST", operation)) && g.name == ResourceName(path)
  {
    var get, post := PathOp(path, "GET", operation), PathOp(path, "POST", operation);
    OneCollected(path, operation);
    hide BucketOf, Collect, Both, ResourceName, Slots;
    CreateAndList(get, post);
    CreatedGroup(GroupFor([get, post], path));
  }

  lemma CreatedGroup(g: Group<Operation>)
    ensures Slots(g) != [] && Slots(g)[0].prefix == "create" ==> g.create == Some(Slots(g)[0].op)
  {}

  lemma SingleSegment(name: string)
    requires '/' !in name && IsNaming(name)
    ensures BucketOf("/" + name) == OfCollection("/" + name) && ResourceName("/" + name) == name
  {
    PlainCollection(name);
    assert NamesAt(["", name], 1);
    hide Split, CountPathParams, NamesAt;
    ResourceNameExact("/" + name);
  }

  lemma ReportsPath()
    ensures BucketOf("/reports.daily") == OfCollection("/reports.daily")
            && ResourceName("/reports.daily") == "reports.daily"
    ensures !StrictChars("reports.daily")
  {
    hide BucketOf, ResourceName;
    assert '/' !in "reports.daily" && IsNaming("reports.daily");
    SingleSegment("reports.daily");
    assert "/" + "reports.daily" == "/reports.daily";
    assert !SourceReferences.IsIdentifierChar("reports.daily"[7]);
  }

  lemma DottedStep(field: string)
    ensures ReferenceIn(StepOutputText("create-" + "reports.daily", field)).None?
  {
    var text, rest := StepOutputText("create-" + "reports.daily", field), "daily.outputs." + field;
    var s := "create-" + "reports.daily" + ".outputs." + field;
    assert s == "create-reports" + "." + rest by {
      assert "create-" + "reports.daily" == "create-reports" + "." + "daily";
      assert rest == "daily" + (".outputs." + field);
      assert s == "create-reports" + "." + "daily" + ".outputs." + field;
    }
    assert '.' !in "create-reports";
    SplitOnceAt("create-reports", ".", rest);
    assert rest[0] == 'd';
    OtherKeyword(rest, "outputs.", 0);
    hide ParseNamed;
    StepOutputParses("create-" + "reports.daily", field);
    assert "$" <= text;
    WholeText(text);
  }

  // ----- A field the grammar does not admit -----

  /** A created resource whose id comes back as `{x}Id`: the step's output is a text that is no expression. */
  lemma BracedFieldExample(operationId: Option<string>, groups: seq<Group<Operation>>, sourceName: string,
                           auth: Option<AuthRequirement>)
    requires IsGrouping(Collect([Both("/reports", BracedOperation(operationId))]), groups)
    requires SourceReferences.IsIdentifierStrict(sourceName)
    ensures exists g :: g in groups && g.collectionPath == "/reports" && WorkflowFor(g, sourceName, auth).Ok?
              && WorkflowFor(g, sourceName, auth).value.steps != []
              && WorkflowFor(g, sourceName, auth).value.steps[0].outputs == map["{x}Id" := "$response.body#/{x}Id"]
    ensures ReferenceIn("$response.body#/{x}Id").None?
  {
    var path, operation := "/reports", BracedOperation(operationId);
    var doc := [Both(path, operation)];
    var g := GroupFor(Collect(doc), path);
    hide Collect, BucketOf, ResourceName, WorkflowFor, IsGrouping, GroupFor, Both, BracedOperation, ReferenceIn,
      StepsFor, Slots, IdBodyField;
    assert '/' !in "reports" && IsNaming("reports") && "/" + "reports" == path;
    SingleSegment("reports");
    OneCollected(path, operation);
    CollectionGroup(doc, groups, PathOp(path, "GET", operation), PathOp(path, "POST", operation));
    CreatedAt(path, operation);
    GroupPath(Collect(doc), path);
    BracedField(g, operationId);
    GroupBuilds(doc, path, sourceName, auth);
    WorkflowSteps(g, sourceName, auth);
    OutputReadsField(g, sourceName);
    BracedPointer();
  }

  function BracedOperation(operationId: Option<string>): Operation {
    Operation(operationId, [Response(Some(201), Object(["{x}Id"]))])
  }

  lemma BracedField(g: Group<Operation>, operationId: Option<string>)
    requires g.create.Some? && g.create.value.operation == BracedOperation(operationId)
    ensures IdBodyField(g) == "{x}Id"
  {
    var names := ["{x}Id"];
    assert "{x}Id"[3..] == "Id" && LooksLikeId("{x}Id");
    hide LooksLikeId;
    assert FirstIdName(names) == Some(names[0]);
    hide FirstIdName;
    assert IdInResponses(BracedOperation(operationId).responses) == Some("{x}Id");
  }

  lemma BracedPointer()
    ensures "$response.body#" + ("/" + JsonPointer.Escape("{x}Id")) == "$response.body#/{x}Id" && '{' in "{x}Id"
  {
    hide JsonPointer.Escape;
    var field := "{x}Id";
    assert '~' !in field && '/' !in field && field[0] == '{';
    JsonPointer.EscapePlain(field);
    assert "/" + field == "/{x}Id";
  }

  lemma WorkflowSteps(g: Group<Operation>, sourceName: string, auth: Option<AuthRequirement>)
    requires WorkflowFor(g, sourceName, auth).Ok?
    ensures StepsFor(g, sourceName, Slots(g)) == Ok(WorkflowFor(g, sourceName, auth).value.steps)
  {
    hide StepsFor, Slots, InputsFor, CreatedId;
  }
}
