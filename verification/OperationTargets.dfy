/** Operation targets: what the generator prints, and the classifiers that read it back. */
module OperationTargets {
  import opened Options
  import opened Strings
  import opened Utf8
  import opened SourceReferences
  import opened Fragments
  import JsonPointer

  // ----- `classify_operation_path` -----

  datatype MalformedOperationPath = SourceExpression | BadPointer

  datatype OperationPathTarget =
    | SourcePointer(sourceName: string, encodedPointer: string)
    | BadPath(reason: MalformedOperationPath)

  const PATH_PREFIX := "{" + QUALIFIED_NAMESPACE + "."

  function ClassifyOperationPath(value: string): OperationPathTarget {
    match StripPrefix(value, PATH_PREFIX)
    case None => BadPath(SourceExpression)
    case Some(rest) =>
      match SplitOnce(rest, "}#")
      case None => BadPath(SourceExpression)
      case Some((reference, encodedPointer)) =>
        match ParseSourceReference(reference)
        case Err(_) => BadPath(SourceExpression)
        case Ok(parsed) =>
          if parsed.referenceId != "url" then BadPath(SourceExpression)
          else if FragmentTokens(encodedPointer).None? then BadPath(BadPointer)
          else SourcePointer(parsed.sourceName, encodedPointer)
  }

  function SourceUrlPointer(sourceName: string, encoded: string): string {
    PATH_PREFIX + (sourceName + ".url" + "}#" + encoded)
  }

  lemma UrlIsReferenceId()
    ensures IsReferenceId("url")
  {
    var tokens := ["u", "r", "l"];
    assert tokens[1..] == ["r", "l"] && ["r", "l"][1..] == ["l"] && ["l"][1..] == [];
    assert Concat(["l"]) == "l" && Concat(["r", "l"]) == "rl" && Concat(tokens) == "url";
    assert IsDerivation(tokens, "url");
  }

  lemma ParseUrl(reference: string, name: string)
    ensures ParseSourceReference(reference) == Ok(SourceReference(name, "url"))
            <==> reference == name + ".url" && IsIdentifierStrict(name)
  {
    UrlIsReferenceId();
    ParseExact(reference, name, "url");
    assert name + "." + "url" == name + ".url";
  }

  lemma NoBrace(name: string)
    requires IsIdentifierStrict(name)
    ensures '}' !in name + ".url"
  {
    StrictNames(name, '}');
  }

  lemma StandardForm(name: string, encoded: string)
    ensures SourceUrlPointer(name, encoded) == "{$sourceDescriptions." + name + ".url}#" + encoded
  {
    assert "{" + "$sourceDescriptions" + "." == "{$sourceDescriptions.";
    assert ".url" + "}#" == ".url}#";
    assert name + ".url" + "}#" + encoded == name + ".url}#" + encoded;
  }

  /** A value names a source document and a pointer exactly when it is written in the standard form. */
  lemma OperationPathExact(value: string, name: string, encoded: string)
    ensures ClassifyOperationPath(value) == SourcePointer(name, encoded) <==>
            value == "{$sourceDescriptions." + name + ".url}#" + encoded
            && IsIdentifierStrict(name) && FragmentTokens(encoded).Some?
  {
    StandardForm(name, encoded);
    hide FragmentTokens, ParseSourceReference, SplitOnce, IsIdentifierStrict;
    if ClassifyOperationPath(value) == SourcePointer(name, encoded) {
      var rest := value[|PATH_PREFIX|..];
      SplitOnceJoins(rest, "}#");
      ParseUrl(SplitOnce(rest, "}#").value.0, name);
      assert value == PATH_PREFIX + rest;
    }
    if value == SourceUrlPointer(name, encoded) && IsIdentifierStrict(name) {
      NoBrace(name);
      assert value[|PATH_PREFIX|..] == name + ".url" + "}#" + encoded;
      SplitOnceAt(name + ".url", "}#", encoded);
      ParseUrl(name + ".url", name);
    }
  }

  /** A value is refused for its pointer exactly when everything up to the pointer is in the standard form. */
  lemma BadPointerExact(value: string)
    ensures ClassifyOperationPath(value) == BadPath(BadPointer) <==>
            exists name, encoded ::
              value == SourceUrlPointer(name, encoded) && IsIdentifierStrict(name) && FragmentTokens(encoded).None?
  {
    hide FragmentTokens, ParseSourceReference, SplitOnce, IsIdentifierStrict;
    if ClassifyOperationPath(value) == BadPath(BadPointer) {
      var rest := value[|PATH_PREFIX|..];
      var (reference, encoded) := SplitOnce(rest, "}#").value;
      var name := ParseSourceReference(reference).value.sourceName;
      SplitOnceJoins(rest, "}#");
      ParseUrl(reference, name);
      assert value == PATH_PREFIX + rest;
      assert value == SourceUrlPointer(name, encoded);
    }
    forall name, encoded | value == SourceUrlPointer(name, encoded) && IsIdentifierStrict(name)
                           && FragmentTokens(encoded).None?
      ensures ClassifyOperationPath(value) == BadPath(BadPointer) {
      NoBrace(name);
      assert value[|PATH_PREFIX|..] == name + ".url" + "}#" + encoded;
      SplitOnceAt(name + ".url", "}#", encoded);
      ParseUrl(name + ".url", name);
    }
  }

  /** The methods of a path item are written in lower case in a pointer. */
  lemma MethodTokens()
    ensures AsciiLower("GET") == "get" && AsciiLower("POST") == "post" && AsciiLower("PUT") == "put"
    ensures AsciiLower("PATCH") == "patch" && AsciiLower("DELETE") == "delete"
  {}

  // ----- `operation_target` -----

  datatype StepTarget = OperationId(value: string) | OperationPath(value: string)

  function AsciiLower(s: string): (r: string)
    ensures |r| == |s|
  {
    seq(|s|, i requires 0 <= i < |s| => if 'A' <= s[i] <= 'Z' then (s[i] as int + 32) as char else s[i])
  }

  function QualifiedId(sourceName: string, id: string): string {
    QUALIFIED_NAMESPACE + "." + (sourceName + "." + id)
  }

  function OperationTarget(sourceName: string, path: string, verb: string,
                           id: Option<string>): Result<StepTarget, string> {
    if ClassifyOperationId(QualifiedId(sourceName, "url")) != SourceQualified(sourceName, "url") then Err(sourceName)
    else if id.Some? && ClassifyOperationId(QualifiedId(sourceName, id.value)) ==
        SourceQualified(sourceName, id.value) then
      Ok(OperationId(QualifiedId(sourceName, id.value)))
    else
      var token := JsonPointer.Escape(path);
      var pointer := "/paths/" + token + "/" + AsciiLower(verb);
      Ok(OperationPath(SourceUrlPointer(sourceName, EncodeBytes(Encode(pointer)))))
  }

  /** The request methods of a path item carry no pointer syntax. */
  predicate IsMethodName(verb: string) {
    '/' !in verb && '~' !in verb
  }

  lemma {:induction false} EscapePlain(s: string)
    requires IsMethodName(s)
    ensures JsonPointer.Escape(s) == s
  {
    if s != "" {
      JsonPointer.EscapeStep(s[0], s[1..]);
      EscapePlain(s[1..]);
      assert s == [s[0]] + s[1..];
    }
  }

  lemma PointerPrints(path: string, verb: string)
    requires IsMethodName(verb)
    ensures "/paths/" + JsonPointer.Escape(path) + "/" + AsciiLower(verb) ==
            JsonPointer.Print(["paths", path, AsciiLower(verb)])
  {
    hide JsonPointer.Escape;
    var m := AsciiLower(verb);
    assert IsMethodName(m);
    EscapePlain(m);
    EscapePlain("paths");
    assert ["paths", path, m][1..] == [path, m] && [path, m][1..] == [m] && [m][1..] == [];
    assert JsonPointer.Print([m]) == ['/'] + (m + "");
    assert JsonPointer.Print([path, m]) == ['/'] + (JsonPointer.Escape(path) + JsonPointer.Print([m]));
  }

  ghost predicate TakesIdForm(id: Option<string>) {
    id.Some? && IsReferenceId(id.value)
  }

  lemma QualifiedReads(sourceName: string, id: string)
    ensures ClassifyOperationId(QualifiedId(sourceName, id)) == SourceQualified(sourceName, id)
            <==> IsIdentifierStrict(sourceName) && IsReferenceId(id)
  {
    hide ClassifyOperationId, IsIdentifierStrict, IsReferenceId;
    QualifiedExact(QualifiedId(sourceName, id), sourceName, id);
    assert "$sourceDescriptions" + "." == "$sourceDescriptions.";
  }

  lemma PointerReads(sourceName: string, encoded: string)
    requires IsIdentifierStrict(sourceName) && FragmentTokens(encoded).Some?
    ensures ClassifyOperationPath(SourceUrlPointer(sourceName, encoded)) == SourcePointer(sourceName, encoded)
  {
    hide ClassifyOperationPath, IsIdentifierStrict, FragmentTokens, SourceUrlPointer;
    StandardForm(sourceName, encoded);
    OperationPathExact(SourceUrlPointer(sourceName, encoded), sourceName, encoded);
  }

  /**
   * The generator refuses exactly the unrepresentable source names; every id in the CHAR grammar
   * takes the id form; and both forms parse back to what they were made from, for any path text.
   */
  lemma TargetRoundTrip(sourceName: string, path: string, verb: string, id: Option<string>)
    requires IsMethodName(verb)
    ensures var r := OperationTarget(sourceName, path, verb, id);
            && (r.Err? <==> !IsIdentifierStrict(sourceName))
            && (r.Ok? ==> match r.value
                case OperationId(v) =>
                  TakesIdForm(id) && ClassifyOperationId(v) == SourceQualified(sourceName, id.value)
                case OperationPath(v) =>
                  && !TakesIdForm(id)
                  && ClassifyOperationPath(v).SourcePointer?
                  && ClassifyOperationPath(v).sourceName == sourceName
                  && FragmentTokens(ClassifyOperationPath(v).encodedPointer) == Some(["paths", path, AsciiLower(verb)]))
  {
    hide ClassifyOperationId, ClassifyOperationPath, FragmentTokens, IsIdentifierStrict, IsReferenceId, EncodeBytes,
      Encode;
    UrlIsReferenceId();
    QualifiedReads(sourceName, "url");
    if id.Some? {
      QualifiedReads(sourceName, id.value);
    }
    PointerPrints(path, verb);
    FragmentRoundTrip(["paths", path, AsciiLower(verb)]);
    var encoded := EncodeBytes(Encode(JsonPointer.Print(["paths", path, AsciiLower(verb)])));
    hide QualifiedId, SourceUrlPointer;
    if IsIdentifierStrict(sourceName) {
      PointerReads(sourceName, encoded);
    }
  }

  // ----- `validate_operation_ids` -----

  datatype Operation = Operation(path: string, verb: string, id: Option<string>)

  /** A path item, or a reference to one (`None`), which is skipped. */
  datatype PathItem = PathItem(path: string, operations: Option<seq<Operation>>)

  datatype Duplicate = Duplicate(id: string, previous: Operation, location: Operation)

  function OperationsOf(item: PathItem): seq<Operation> {
    match item.operations case Some(ops) => ops case None => []
  }

  function Flatten(items: seq<PathItem>): seq<Operation> {
    if items == [] then [] else OperationsOf(items[0]) + Flatten(items[1..])
  }

  /** How many operations the first `n` path items have. */
  ghost function Offset(items: seq<PathItem>, n: nat): nat
    requires n <= |items|
  {
    if n == 0 then 0
    else Offset(items, n - 1) + (if items[n - 1].operations.Some? then |items[n - 1].operations.value| else 0)
  }

  lemma {:induction false} OffsetFirst(items: seq<PathItem>, n: nat)
    requires 0 < n <= |items|
    ensures Offset(items, n) == |OperationsOf(items[0])| + Offset(items[1..], n - 1)
  {
    if n > 1 {
      OffsetFirst(items, n - 1);
    } else {
      assert Offset(items, 1) == Offset(items, 0) + |OperationsOf(items[0])|;
    }
  }

  lemma {:induction false} FlattenLength(items: seq<PathItem>)
    ensures |Flatten(items)| == Offset(items, |items|)
  {
    if items != [] {
      hide Offset, Flatten;
      FlattenFirst(items);
      FlattenLength(items[1..]);
      OffsetFirst(items, |items|);
    }
  }

  /** The operations of a document are those of its path items, one item after the other. */
  lemma {:induction false} FlattenExact(items: seq<PathItem>, i: nat, k: nat)
    requires i < |items| && items[i].operations.Some? && k < |items[i].operations.value|
    ensures |Flatten(items)| == Offset(items, |items|)
    ensures Offset(items, i) + k < |Flatten(items)|
    ensures Flatten(items)[Offset(items, i) + k] == items[i].operations.value[k]
  {
    FlattenLength(items);
    FlattenFirst(items);
    hide Offset, Flatten;
    if i > 0 {
      FlattenExact(items[1..], i - 1, k);
      OffsetFirst(items, i);
    }
  }

  lemma FlattenFirst(items: seq<PathItem>)
    requires items != []
    ensures Flatten(items) == OperationsOf(items[0]) + Flatten(items[1..]) && Offset(items, 0) == 0
  {}

  ghost predicate DistinctIds(ops: seq<Operation>) {
    forall i, j :: 0 <= i < j < |ops| && ops[i].id.Some? ==> ops[i].id != ops[j].id
  }

  ghost predicate Records(locations: map<string, Operation>, ops: seq<Operation>) {
    && (forall id :: id in locations ==> locations[id] in ops && locations[id].id == Some(id))
    && (forall op :: op in ops && op.id.Some? ==> op.id.value in locations)
  }

  lemma RecordStep(locations: map<string, Operation>, done: seq<Operation>, op: Operation)
    requires DistinctIds(done) && Records(locations, done)
    ensures op.id.None? ==> DistinctIds(done + [op]) && Records(locations, done + [op])
    ensures op.id.Some? && op.id.value !in locations ==>
              DistinctIds(done + [op]) && Records(locations[op.id.value := op], done + [op])
    ensures op.id.Some? && op.id.value in locations ==>
              locations[op.id.value] in done && locations[op.id.value].id == op.id && !DistinctIds(done + [op])
  {
    var done' := done + [op];
    assert done'[|done|] == op;
    if op.id.Some? && op.id.value in locations {
      var i :| 0 <= i < |done| && done[i] == locations[op.id.value];
      assert done'[i].id == done'[|done|].id;
    }
  }

  lemma NothingRecorded()
    ensures DistinctIds([]) && Records(map[], [])
  {}

  lemma DistinctPrefix(ops: seq<Operation>, n: nat)
    requires n <= |ops| && DistinctIds(ops)
    ensures DistinctIds(ops[..n])
  {}

  /** `operation` is the first to repeat an id, and `previous` the one it repeats. */
  ghost predicate IsFirstDuplicate(all: seq<Operation>, j: nat, d: Duplicate) {
    && j < |all| && all[j] == d.location && DistinctIds(all[..j])
    && d.previous in all[..j] && d.previous.id == d.location.id == Some(d.id)
  }

  lemma MoveOne<T>(all: seq<T>, done: seq<T>, rest: seq<T>)
    requires all == done + rest && rest != []
    ensures all == done + [rest[0]] + rest[1..]
    ensures all[|done|] == rest[0] && all[..|done|] == done && all[..|done| + 1] == done + [rest[0]]
  {}

  lemma DropOne<T>(ops: seq<T>, k: nat, after: seq<T>)
    requires k < |ops|
    ensures (ops[k..] + after)[0] == ops[k] && (ops[k..] + after)[1..] == ops[k + 1..] + after
  {}

  /** Accepts exactly the documents without a duplicate id, and otherwise names the first one. */
  method ValidateOperationIds(items: seq<PathItem>) returns (r: Result<(), Duplicate>)
    ensures r.Ok? <==> DistinctIds(Flatten(items))
    ensures r.Err? ==> exists j: nat :: IsFirstDuplicate(Flatten(items), j, r.error)
  {
    hide DistinctIds, Records;
    var locations: map<string, Operation> := map[];
    NothingRecorded();
    ghost var all, done: seq<Operation> := Flatten(items), [];
    for n := 0 to |items|
      invariant all == done + Flatten(items[n..])
      invariant DistinctIds(done) && Records(locations, done)
    {
      var operations := OperationsOf(items[n]);
      ghost var after := Flatten(items[n + 1..]);
      assert items[n..][1..] == items[n + 1..];
      assert operations[0..] == operations;
      for k := 0 to |operations|
        invariant all == done + (operations[k..] + after)
        invariant DistinctIds(done) && Records(locations, done)
      {
        var operation := operations[k];
        DropOne(operations, k, after);
        MoveOne(all, done, operations[k..] + after);
        RecordStep(locations, done, operation);
        if operation.id.Some? {
          var id := operation.id.value;
          if id in locations {
            if DistinctIds(all) {
              DistinctPrefix(all, |done| + 1);
            }
            assert IsFirstDuplicate(all, |done|, Duplicate(id, locations[id], operation));
            return Err(Duplicate(id, locations[id], operation));
          }
          locations := locations[id := operation];
        }
        done := done + [operation];
      }
      assert operations[|operations|..] + after == after;
    }
    assert done == all;
    return Ok(());
  }

  /** In a validated document whose (path, method) pairs differ, no two operations share a target. */
  lemma TargetsDistinct(sourceName: string, ops: seq<Operation>, i: nat, j: nat)
    requires DistinctIds(ops) && i < j < |ops| && IsIdentifierStrict(sourceName)
    requires IsMethodName(ops[i].verb) && IsMethodName(ops[j].verb)
    requires ops[i].path != ops[j].path || AsciiLower(ops[i].verb) != AsciiLower(ops[j].verb)
    ensures OperationTarget(sourceName, ops[i].path, ops[i].verb, ops[i].id)
            != OperationTarget(sourceName, ops[j].path, ops[j].verb, ops[j].id)
  {
    hide OperationTarget, ClassifyOperationId, ClassifyOperationPath, FragmentTokens;
    TargetRoundTrip(sourceName, ops[i].path, ops[i].verb, ops[i].id);
    TargetRoundTrip(sourceName, ops[j].path, ops[j].verb, ops[j].id);
    assert ["paths", ops[i].path, AsciiLower(ops[i].verb)] != ["paths", ops[j].path, AsciiLower(ops[j].verb)] by {
      assert forall p, m :: ["paths", p, m][1] == p && ["paths", p, m][2] == m;
    }
  }
}
