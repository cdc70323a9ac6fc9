# Arazzo toolchain: verified model

A Dafny model of the logic of the Arazzo toolchain that stands on its own: dependency checks, expression
strings, operation targets, number comparison, message framing, query budgets, the inventory of
expression-bearing fields, the CRUD workflow generator, and the editor's hover spans. `dafny verify dfyconfig.toml`
checks the whole project.

Each module follows one component. Code that computes a value by expressions and recursion is a
function. Code that updates variables, a stack, a cursor, a reader or a shared list is a method, or a
class with those fields, proved against a function or directly against what the program promises. The
lemmas then prove that function right against an independent reading: a grammar, a path through a tree,
an inverse, an order on the reals, a reachability relation.

- `DependencyCycles`, `DependsOn`: the three-colour depth-first search behind both `dependsOn` checks. It
  answers true exactly when a cycle can be reached, leaves a topological order otherwise, and takes at
  most one turn for each node and each entry.
- `RuntimeExpressions`, `ExpressionStrings`, `Interpolation`: the scan of a string for `{$...}` spans, the
  lookup of what an expression names, template rendering, and the discovery of the step outputs a string
  reads. Rendering depends on step outputs only through the reported references, and each reported
  reference matters. The expression parser, JSON printing and JSON Pointer lookup are parameters. Two things
  are assumed of the parser (`RuntimeExpressions.Lawful`): an accepted text is returned whole, starts with
  `$` and has the form of its namespace; and the range of a refusal lies within the text and, where the
  text is valid UTF-8, cuts out whole characters.
- `SourceReferences`, `JsonPointer`, `Utf8`, `Fragments`, `OperationTargets`: the `source-reference`
  production (section 5.9 of the Arazzo Specification 1.1.0), JSON Pointer escaping (section 4 of RFC
  6901), percent-encoding (section 2.1 of RFC 3986, section 6 of RFC 6901) and UTF-8, stacked into the
  round trip from the generator's targets to the classifiers.
- `Decimal`, `NumericComparison`: comparison of i64, u64 and finite binary64 values, where a float is an
  exact dyadic rational.
- `Framing`, `FramedStreams`: the DAP and MCP readers and writers over byte streams; whole sessions read
  back, under any header block the readers accept, and what a stream cut after any byte delivers.
- `JsonPathAdmission`: the nesting budget of a query and the depth budget of its context.
- `ExpressionSites`: the walk that lists the expression-bearing fields of a step, with its shared path.
- `RelativePaths`: lexical normalisation, and the relative document URL as a file system follows it, from the
  arguments given to the file they name.
- `ResourceGrouping`, `DocumentOperations`, `CrudWorkflow`, `GeneratedWorkflows`, `References`, `CrudScoping`,
  `CrudDocuments`: the operations of a document and the groups they fill, the workflow of a group field by
  field, its references as the Runtime Expression grammar reads them, and the workflows of one document.
- `SchemaRefs`, `Examples`: `$ref` resolution and example values.
- `HoverSpans`: the span offered under the cursor.

Ordered maps are held as sequences of entries; a lemma asks for distinct names where the program's map
guarantees them.

Where the program falls short of what its callers could expect, the model keeps the program and states
exactly when the expectation holds:

- `CrudDocuments.FillsPathExactly`: a create or list step fills its path exactly when the path has no
  parameter, an item step exactly when every parameter of its path is called as the one that ends the group's
  first item path. So `/users/{id}/posts` is listed and created without `{id}` (`InnerParameterExample`), and
  items read at `/a/{id}` and deleted at `/a/{key}` leave `{key}` unfilled (`OtherNameExample`).
- `CrudDocuments.GeneratedScoped`: the references of a generated workflow resolve exactly when the names put
  into them are ones the grammar admits there: a resource name without dots, and identifiers for fields,
  parameters and credentials. For `/reports.daily` the emitted reference is no expression
  (`DottedNameExample`).
- `CrudDocuments.OutputReadsField`: the output of a create step is an expression exactly when the field's name
  has no brace. Where the created resource comes back with `{x}Id` it is none (`BracedFieldExample`).
- `CrudDocuments.WorkflowIds`: the workflows of a document have distinct ids exactly when no two of its
  collection paths are called after the same segment. `/v1/users` and `/v2/users` collide (`SameIdExample`).
- `CrudScoping.RequiredOnce`: the required list of the inputs repeats a name exactly when the credential and
  the id asked for share that name, as with an API key called `id` (`RequiredTwiceExample`).
- `FramedStreams.CutMcpSession`: an MCP stream cut short delivers a prefix of what was sent exactly when the cut
  does not split a one-line object behind a whole character; there the reader takes the part that arrived for a
  message (`CutOneLineExample`). A DAP stream never delivers an altered message (`FramedStreams.CutSession`).
- `FramedStreams.CutFrame`: a frame cut before its end is not read, except that an empty payload does not need
  the LF of a blank line that ends in CR LF (`CutFrameExample`).
- `Examples.NumberExact`: a number made up for a schema's bounds meets the minimum always, and the maximum exactly
  when the bounds leave room for it as it is chosen: at the minimum, or 1 above an excluded one; without a minimum
  always, unless the maximum is 1 and excluded (`ExcludedOneExample`).

## Model

| member | source | states |
|---|---|---|
| DependencyCycles.GraphHasCycle | crates/arazzo-validate/src/step_dependencies.rs:54-98 | true iff a node on a cycle of resolved entries is reachable from a start; when false, the finishing order is a topological order of everything reachable; at most one loop turn for each node and each entry |
| DependencyCycles.Explore | crates/arazzo-validate/src/step_dependencies.rs:74-95 | one start of the search keeps the invariant: a cycle is reported only if reachable, else the stack ends empty with the order closed |
| DependencyCycles.OrderMeansAcyclic | crates/arazzo-validate/src/step_dependencies.rs:66-97 | an order with every node after all it depends on rules out a reachable cycle, so the answer false is right |
| DependencyCycles.BackEdge | crates/arazzo-validate/src/step_dependencies.rs:84-88 | an entry that leads to a node in progress closes a cycle reachable from a start |
| DependencyCycles.Descend | crates/arazzo-validate/src/step_dependencies.rs:90-93 | stepping into an unvisited node keeps the search invariant |
| DependencyCycles.Finish | crates/arazzo-validate/src/step_dependencies.rs:76-80 | popping a frame whose entries are all passed keeps the invariant and appends its node to the order |
| DependsOn.LocalStepDependsOnHasCycle | crates/arazzo-validate/src/step_dependencies.rs:31-48 | true iff some circle of steps depends on itself, where of two steps with one id the later is meant |
| DependsOn.LocalWorkflowDependsOnHasCycle | crates/arazzo-validate/src/step_dependencies.rs:11-29 | true iff a chain of local dependencies from the start workflow runs into a circle |
| DependsOn.LocalEdges | crates/arazzo-validate/src/step_dependencies.rs:11-48 | the graph's edges are exactly the entries that name a local item |
| DependsOn.PositionsExact | crates/arazzo-validate/src/step_dependencies.rs:11-48 | the index maps an id to the last item that has it, and to nothing else |
| DependsOn.StepCycles | crates/arazzo-validate/src/step_dependencies.rs:31-48 | a reachable graph cycle from all steps is exactly a circle of step ids |
| DependsOn.WorkflowCycles | crates/arazzo-validate/src/step_dependencies.rs:11-29 | a reachable graph cycle from one workflow is exactly a chain of ids into a circle |
| DependsOn.CrossWorkflowExact | crates/arazzo-validate/src/step_dependencies.rs:107-129 | an entry is a cross-workflow step iff it is written `$workflows.<id>.steps.<id>` with dot-free nonempty ids |
| DependsOn.ExternalSourceExact | crates/arazzo-validate/src/step_dependencies.rs:107-129 | an entry is an external step iff it is written `$sourceDescriptions.<name>.<id>.steps.<id>` with dot-free nonempty parts |
| SourceReferences.IsSourceReferenceId | crates/arazzo-spec/src/source_reference.rs:79-105 | the character loop accepts exactly the derivations of 1*CHAR, escapes and `\uXXXX` included |
| SourceReferences.CharsAreReferenceIds | crates/arazzo-spec/src/source_reference.rs:79-105 | greedy reading of CHARs succeeds iff a derivation exists |
| SourceReferences.CharClasses | crates/arazzo-spec/src/source_reference.rs:79-105 | the classes of the grammar by what they leave out: no controls, quotation marks, backslashes or braces unescaped |
| SourceReferences.IdentifierBytesAreChars | crates/arazzo-spec/src/source_reference.rs:67-72 | the byte test for strict names agrees with the character grammar on every text |
| SourceReferences.StrictExact | crates/arazzo-spec/src/source_reference.rs:67-72 | a strict identifier is not empty and made of letters, digits, hyphens and underscores |
| SourceReferences.IdentifierCharExact | crates/arazzo-spec/src/source_reference.rs:67-72 | those characters, one by one |
| SourceReferences.ParseExact | crates/arazzo-spec/src/source_reference.rs:45-64 | the parser accepts exactly the production, and its split is the only one |
| SourceReferences.ParseRefusals | crates/arazzo-spec/src/source_reference.rs:45-64 | each refusal names the first rule broken from the left |
| SourceReferences.QualifiedExact | crates/arazzo-spec/src/operation_id.rs:123-145 | an operationId and a `dependsOn` value are source-qualified exactly when they are the namespace, a dot and the production |
| SourceReferences.MalformedExact | crates/arazzo-spec/src/operation_id.rs:123-145 | each reason for a malformed operationId is characterised by its text |
| SourceReferences.ClassifiersAgree | crates/arazzo-spec/src/workflow_dependency.rs:24-44 | on the shared prefix the two classifiers split alike or refuse alike |
| SourceReferences.OffPrefix | crates/arazzo-spec/src/workflow_dependency.rs:24-44 | off the prefix neither is qualified, and when each is bare or local |
| RuntimeExpressions.ResolvedExactly | crates/arazzo-expr/src/resolution.rs:52-252 | read off the context field by field: the value is the named root with the pointer followed; a value found (null included) has no warning, one not found has, in the reporting namespaces only, the one notice of what is missing, about this expression |
| RuntimeExpressions.GetHeaderExact | crates/arazzo-expr/src/lib.rs:234-245 | a header is the field of the exact name, else the first whose name differs in case only |
| RuntimeExpressions.EqIgnoreCaseExact | crates/arazzo-expr/src/lib.rs:234-245 | names are equal ignoring case iff they differ, byte by byte, in the case of ASCII letters alone |
| ExpressionStrings.Scanner.Next | crates/arazzo-expr/src/expression_string.rs:90-127 | one call yields the next candidate at or after the cursor; the cursor moves to its end after a success and is dropped otherwise |
| ExpressionStrings.ClassifyValueString | crates/arazzo-expr/src/expression_string.rs:74-86 | a value is one whole expression, a literal, a template of all its spans, or the first error |
| ExpressionStrings.ClassifyExact | crates/arazzo-expr/src/expression_string.rs:74-86 | a text that parses is that one whole expression, whatever it names; any other text is literal iff its decomposition has no candidate, a template of exactly its spans, or refused with its first violation |
| ExpressionStrings.Decompose | crates/arazzo-expr/src/expression_string.rs:90-127 | every text splits into ordered disjoint `{$` spans closed by their first `}`, with no `{$` between or after them but possibly one unclosed |
| ExpressionStrings.DecompositionUnique | crates/arazzo-expr/src/expression_string.rs:90-127 | it splits in one way only |
| ExpressionStrings.ScanExact | crates/arazzo-expr/src/expression_string.rs:90-127 | the scan succeeds iff every span parses and none is unclosed, with exactly the decomposition; otherwise it returns the first violation, never a partial list |
| ExpressionStrings.SpansAreText | crates/arazzo-expr/src/expression_string.rs:26-33 | spans, inner texts and the stretches between them are whole characters |
| ExpressionStrings.ErrorRangeIsText | crates/arazzo-expr/src/expression_string.rs:90-127 | an error range slices the input into whole characters, for inner errors on the assumption that the range the parser reports does |
| Interpolation.RenderTemplate | crates/arazzo-expr/src/interpolation.rs:15-33 | the rendering loop replaces each span by its text, keeps every other byte in place, and lists the warnings in order |
| Interpolation.Render | crates/arazzo-expr/src/interpolation.rs:10-43 | whole expressions keep their value, templates become strings, and a malformed value stays the input string with one warning |
| Interpolation.WholeRendered | crates/arazzo-expr/src/interpolation.rs:10-14 | a text that is one whole expression of any namespace keeps the value it names, of whatever type, null when missing, and evaluates alike in either field mode |
| Interpolation.TextRendered | crates/arazzo-expr/src/interpolation.rs:10-43 | any other text, through its decomposition: unchanged without a warning when nothing is reserved, unchanged with the first violation as the one warning when malformed, else filled in span by span |
| Interpolation.SubstituteFills | crates/arazzo-expr/src/interpolation.rs:15-33 | what is filled in: the stretches between the spans as they are, each span by the text of its value when that is a string and by its JSON otherwise, null when missing; and the warnings of the spans in order |
| Interpolation.SubstituteSelf | crates/arazzo-expr/src/interpolation.rs:15-33 | putting each span's own source text back gives back the input |
| Interpolation.LocalStepOutputReferences | crates/arazzo-expr/src/step_output_reference.rs:66-110 | the reported references are those of the embedded or whole expressions, in order, in each of the three modes modelled, or the error |
| Interpolation.EmbeddedExact | crates/arazzo-expr/src/step_output_reference.rs:102-107 | of a condition, accepted iff every closed span of its one decomposition parses and none is left open: the references in all spans, in order and repeated as they are; else the first violation and no partial list |
| Interpolation.LiteralLikeCondition | crates/arazzo-expr/src/step_output_reference.rs:72-107 | a literal-or-expression text that is not one whole expression reports what a condition of that text does, references and errors alike |
| Interpolation.WholeReferences | crates/arazzo-expr/src/step_output_reference.rs:72-95 | one whole expression reports the same in a field that may hold a literal as in one that may not |
| Interpolation.Noninterference | crates/arazzo-expr/src/step_output_reference.rs:66-121 | contexts that agree off the step outputs and at every reported reference render every string alike, values and warnings, malformed strings included |
| Interpolation.RequiredNoninterference | crates/arazzo-expr/src/step_output_reference.rs:66-121 | the same for a field that must be one complete expression |
| Interpolation.EveryReferenceMatters | crates/arazzo-expr/src/step_output_reference.rs:66-121 | discovery is tight: two contexts that differ at one reported output alone render differently |
| Interpolation.OutputNotices | crates/arazzo-expr/src/resolution.rs:80-101 | the warning that a step lacks an output appears iff a reported reference names it and the step lacks it |
| JsonPointer.ParsePrint | crates/arazzo-generate/src/operation_targets.rs:59-60 | unescaping and splitting a printed pointer gives back its tokens, whatever their characters |
| JsonPointer.EscapeStep | crates/arazzo-generate/src/operation_targets.rs:60 | a tilde is written `~0`, a slash `~1`, every other character as it is |
| JsonPointer.PointersParse | crates/arazzo-spec/src/operation_path.rs:108-116 | the syntactic pointer test accepts exactly the texts that parse |
| Utf8.DecodeEncode | crates/arazzo-spec/src/operation_path.rs:105-107 | decoding an encoded text gives it back |
| Utf8.EncodeDecode | crates/arazzo-spec/src/operation_path.rs:105-107 | bytes that decode are the encoding of what they decode to |
| Fragments.EncodeFragment | crates/arazzo-generate/src/operation_targets.rs:71-84 | the byte loop percent-encodes exactly the bytes outside the kept set |
| Fragments.AdmittedExact | crates/arazzo-spec/src/operation_path.rs:86-101 | the characters a fragment may hold and those left unescaped, by the printable characters left out |
| Fragments.HexExact | crates/arazzo-generate/src/operation_targets.rs:68-85 | escapes are written in capitals and read in either case |
| Fragments.ValidPointerFragment | crates/arazzo-spec/src/operation_path.rs:86-117 | true iff percent-decoding gives UTF-8 text that is a JSON Pointer |
| Fragments.DecodeEncodedBytes | crates/arazzo-generate/src/operation_targets.rs:71-84 | percent-decoding undoes percent-encoding on all bytes |
| Fragments.FragmentRoundTrip | crates/arazzo-generate/src/operation_targets.rs:59-65 | every pointer printed and encoded is accepted and decodes to its tokens |
| OperationTargets.OperationPathExact | crates/arazzo-spec/src/operation_path.rs:63-84 | a value is a source pointer iff it is written in the standard form with a strict name and a valid fragment |
| OperationTargets.BadPointerExact | crates/arazzo-spec/src/operation_path.rs:63-84 | a value is refused for its pointer iff everything up to the pointer is in the standard form |
| OperationTargets.TargetRoundTrip | crates/arazzo-generate/src/operation_targets.rs:30-66 | refused iff the source name is not strict; an id in the CHAR grammar takes the id form; both forms parse back to the source, id, path and method they were made from |
| OperationTargets.MethodTokens | crates/arazzo-generate/src/operation_targets.rs:56-66 | the five methods are written in lower case |
| OperationTargets.ValidateOperationIds | crates/arazzo-generate/src/operation_targets.rs:9-28 | accepts exactly the documents without a repeated id, else names the first repeat and the operation it repeats |
| OperationTargets.FlattenExact | crates/arazzo-generate/src/operation_targets.rs:9-28 | the operations checked are those of the path items one after the other, each at its place |
| OperationTargets.TargetsDistinct | crates/arazzo-generate/src/operation_targets.rs:30-66 | in a validated document, distinct (path, method) pairs get distinct targets |
| NumericComparison.CompareExact | crates/arazzo-expr/src/simple_condition/numeric.rs:41-63 | comparison is the order of the exact values on i64, u64 and finite f64 |
| NumericComparison.IntegerFloatExact | crates/arazzo-expr/src/simple_condition/numeric.rs:65-80 | integer against float is exact, at the edges of the ranges and for negative fractions |
| NumericComparison.FloatValue | crates/arazzo-expr/src/simple_condition/numeric.rs:41-63 | the exact value of a float is its mantissa times its power of two, with its sign |
| NumericComparison.TotalPreorder | crates/arazzo-expr/src/simple_condition/numeric.rs:41-80 | comparison is reflexive, antisymmetric up to equal value, total and transitive across mixed types |
| NumericComparison.ParseIntegerExact | crates/arazzo-expr/src/simple_condition/numeric.rs:11-38 | an integral spelling is stored with its exact value, or refused exactly when it is out of range |
| NumericComparison.IntegralSpellingsCompare | crates/arazzo-expr/src/simple_condition/numeric.rs:11-56 | two integral spellings compare as the integers they spell |
| NumericComparison.NumberExact | crates/arazzo-expr/grammar/arazzo.pest:32-39 | the spellings accepted are exactly the numbers of the grammar: an optional minus, digits without a leading zero, a fraction, an exponent |
| NumericComparison.NonzeroExact | crates/arazzo-expr/src/simple_condition/numeric.rs:32-36 | the test on the digits before the exponent finds exactly the spellings of a nonzero value |
| NumericComparison.ParseFloatExact | crates/arazzo-expr/src/simple_condition/numeric.rs:26-38 | a spelling with a fraction or an exponent is stored as it rounds; refused iff it rounds beyond the largest float, or its value is not zero and rounds to zero |
| NumericComparison.Widths | crates/arazzo-expr/src/simple_condition/numeric.rs:18-25 | the integer bounds are those of 64-bit integers |
| Framing.ReadHeaderBlock | crates/arazzo-debug-adapter/src/dap/transport.rs:88-111 | the header loop reads the lines up to the blank one and keeps the last length |
| Framing.ReadDapMessage | crates/arazzo-debug-adapter/src/dap/transport.rs:84-123 | one DAP message, the end of the stream, or the error, with the reader left behind the message |
| Framing.WriteDapMessage | crates/arazzo-debug-adapter/src/dap/transport.rs:125-141 | appends exactly one frame |
| Framing.ReadMessage | crates/arazzo-mcp/src/protocol.rs:51-116 | one MCP message in either form behind blank lines, with the reader left behind it |
| Framing.WriteMessage | crates/arazzo-mcp/src/protocol.rs:119-130 | appends the payload and a newline |
| FramedStreams.FrameReadsBack | crates/arazzo-debug-adapter/src/dap/transport.rs:84-141 | a header block with any fields, spellings of the length and line ends, and its payload, is read as that payload up to its last byte under either protocol, the last length winning |
| FramedStreams.BlockExact | crates/arazzo-debug-adapter/src/dap/transport.rs:84-123 | what either reader makes of any header block and the bytes behind it: a length that is no number, no length, too few bytes and bytes that are no text are refused in that order, else the message and the rest |
| FramedStreams.LengthLimit | crates/arazzo-debug-adapter/src/dap/transport.rs:104-110 | a written length is read iff it fits 64 bits |
| FramedStreams.WrittenIsFrame | crates/arazzo-debug-adapter/src/dap/transport.rs:125-141 | what the writer emits is such a frame, its decimal length read back |
| FramedStreams.McpIsDap | crates/arazzo-mcp/src/protocol.rs:68-116 | behind a first line that is a header field the MCP reader does what the DAP reader does |
| FramedStreams.DapSessionReadsBack | crates/arazzo-debug-adapter/src/dap/transport.rs:84-141 | reading any sequence of written messages gives back the payloads, then the end |
| FramedStreams.McpLinesReadBack | crates/arazzo-mcp/src/protocol.rs:51-130 | reading any sequence of objects written one to a line gives back the payloads, then the end |
| FramedStreams.McpSessionReadsBack | crates/arazzo-mcp/src/protocol.rs:51-130 | any interleaving of frames with any header block, one-line objects and blank lines is read as exactly its payloads, then the end |
| FramedStreams.CutFrame | crates/arazzo-debug-adapter/src/dap/transport.rs:84-123 | a frame cut before its end is read iff its payload is empty and only the LF of a blank line in CR LF is missing, and then as that payload |
| FramedStreams.CutFrameExample | crates/arazzo-debug-adapter/src/dap/transport.rs:91-112 | a written empty message without its last byte is read, under either protocol, as the empty message |
| FramedStreams.CutSession | crates/arazzo-debug-adapter/src/dap/transport.rs:84-123 | a DAP stream cut after any byte delivers exactly the frames wholly before the cut, and an empty payload whose frame lacks only its last byte |
| FramedStreams.CutOneLine | crates/arazzo-mcp/src/protocol.rs:55-73 | a one-line object cut before its newline is read iff the cut is behind a whole character and the brace; the message is what arrived, and the object itself iff its last character did |
| FramedStreams.CutMcpSession | crates/arazzo-mcp/src/protocol.rs:51-116 | an MCP stream cut after any byte delivers the payloads of the items wholly before the cut and what the cut item delivers; a prefix of what was sent iff the cut does not split a one-line object |
| FramedStreams.CutOneLineExample | crates/arazzo-mcp/src/protocol.rs:70-73 | of the object `{}` the brace alone is read as a message |
| Decimal.ParsePrint | crates/arazzo-debug-adapter/src/dap/transport.rs:104-110 | parsing a printed length gives it back |
| Decimal.ValueExact | crates/arazzo-debug-adapter/src/dap/transport.rs:104-110 | the value of digits is positional: a digit counts ten times as much as behind it |
| Decimal.ParseUnsignedExact | crates/arazzo-debug-adapter/src/dap/transport.rs:104-110 | accepted iff it is an optional plus and digits of a number in range, and as that number |
| JsonPathAdmission.AdmitNesting | crates/arazzo-expr/src/jsonpath.rs:246-275 | the byte loop decides the recursive nesting verdict |
| JsonPathAdmission.NestingExact | crates/arazzo-expr/src/jsonpath.rs:246-275 | refused iff, outside quoted literals and before an unterminated one, some stretch has more than eight surplus openings |
| JsonPathAdmission.SkipExact | crates/arazzo-expr/src/jsonpath.rs:250-260 | a literal ends at the first quote of its kind that no backslash hides |
| JsonPathAdmission.DepthIsSurplus | crates/arazzo-expr/src/jsonpath.rs:246-275 | the depth floored at zero is the largest surplus of a trailing stretch |
| JsonPathAdmission.BytesAgreeWithChars | crates/arazzo-expr/src/jsonpath.rs:246-275 | the byte pass and a character pass agree on every text, also when a backslash precedes a multi-byte character |
| JsonPathAdmission.AdmitExpression | crates/arazzo-expr/src/jsonpath.rs:218-236 | the three budgets, the first one broken being reported |
| JsonPathAdmission.StructuralExact | crates/arazzo-expr/src/jsonpath.rs:225-229 | the structural count is the number of characters `.`, `[`, `(`, `!`, `&` and vertical bar in the text |
| JsonPathAdmission.AdmitContext | crates/arazzo-expr/src/jsonpath.rs:281-310 | accepts iff the context nests at most 128 containers, and ends on every tree |
| JsonPathAdmission.PopKeepsVerdict | crates/arazzo-expr/src/jsonpath.rs:286-308 | popping any entry keeps the verdict and shrinks the work left |
| JsonPathAdmission.AnyOrder | crates/arazzo-expr/src/jsonpath.rs:286-308 | every pop order ends with the same answer |
| ExpressionSites.Walker.VisitLiteral | crates/arazzo-spec/src/step_expression.rs:176-209 | appends the sites of the value under the current path and restores the path |
| ExpressionSites.Walker.VisitChild | crates/arazzo-spec/src/step_expression.rs:211-222 | the same for a child, which may be an admitted selector |
| ExpressionSites.Walker.PushSelectorContext | crates/arazzo-spec/src/step_expression.rs:224-239 | lists a selector's context as a required expression and restores the path |
| ExpressionSites.LiteralExact | crates/arazzo-spec/src/step_expression.rs:176-222 | a text is listed under a path iff following the path leads to it; each once, in stored order; keys, tagged nodes and the inside of selectors are not |
| ExpressionSites.SourceExact | crates/arazzo-spec/src/step_expression.rs:162-174 | the same for a typed selector or a literal |
| ExpressionSites.StepExpressionSites | crates/arazzo-spec/src/step_expression.rs:81-160 | lists the blocks of the step in order, or nothing for a step index out of range |
| ExpressionSites.BlocksExact | crates/arazzo-spec/src/step_expression.rs:81-160 | the blocks are exactly the declarations in force, each once, in inventory order |
| ExpressionSites.InventoryExact | crates/arazzo-spec/src/step_expression.rs:81-254 | a text is in the inventory iff its declaration is in force and its path leads to it in its mode; no two entries share both; entries follow the order of declarations and, within one, stored order |
| ExpressionSites.EffectiveExact | crates/arazzo-spec/src/effective_step.rs:37-72 | every step parameter, and every workflow parameter for which no step parameter has both its name and its location, an absent location being one of its own; each once, those of the workflow first, in source order |
| ExpressionSites.OtherLocationKept | crates/arazzo-spec/src/effective_step.rs:42-53 | a workflow parameter and a step parameter of one name are both in force when no step parameter has its location |
| RelativePaths.NormalizeLexically | crates/arazzo-generate/src/crud.rs:279-295 | the loop computes the normal form |
| RelativePaths.NormalizeIdempotent | crates/arazzo-generate/src/crud.rs:279-295 | the result is reduced, normalising is idempotent, and a prefix may be normalised first |
| RelativePaths.NormalizeNames | crates/arazzo-generate/src/crud.rs:275-295 | normalising a path does not change the file it names, from any directory |
| RelativePaths.RelativeUrl | crates/arazzo-generate/src/crud.rs:207-246 | the loops compute the climb and the descent behind the common prefix, guarded, or refuse |
| RelativePaths.UrlReadsBack | crates/arazzo-generate/src/crud.rs:266-273 | the guarded URL parses back to its components, its first segment free of colons |
| RelativePaths.Climb | crates/arazzo-generate/src/crud.rs:224-230 | climbing out of a tail undoes it exactly when it has no `..` |
| RelativePaths.UrlLeadsBack | crates/arazzo-generate/src/crud.rs:153-247 | refused iff the paths are equal; otherwise the URL is relative, its first segment has no colon, and following it from the output directory reaches the document |
| RelativePaths.ResolveResolves | crates/arazzo-generate/src/crud.rs:195-205 | every resolved input is a root followed by reduced components, and has no `..` when it exists |
| RelativePaths.ResolveNames | crates/arazzo-generate/src/crud.rs:195-205 | resolving keeps the place: where the file system finds the absolute path, links included; and without links where the path leads from the working directory |
| RelativePaths.RelativeDocumentUrl | crates/arazzo-generate/src/crud.rs:181-247 | resolves the text of the document and the directory, then takes the URL of the two |
| RelativePaths.DocumentUrlLeadsBack | crates/arazzo-generate/src/crud.rs:181-247 | from the arguments to the file: refused iff the resolved inputs are equal; otherwise the URL is relative, and following it from where the system finds the output directory reaches the document |
| RelativePaths.DocumentUrlFollowed | crates/arazzo-generate/src/crud.rs:181-247 | without links: following the URL from the place the output path names reaches the place the document path names, both read in the working directory |
| RelativePaths.UrlIsShortest | crates/arazzo-generate/src/crud.rs:210-246 | for existing paths no path from the output directory to the document has fewer components than the URL |
| RelativePaths.CanonicalUrlLeadsBack | crates/arazzo-generate/src/crud.rs:181-247 | for existing paths the URL also normalises back to the document's path |
| RelativePaths.UrlNormalizesBack | crates/arazzo-generate/src/crud.rs:181-247 | as text, the URL joined onto the output directory normalises to the document's own path iff no `..` is left in the unshared part |
| ResourceGrouping.InExact | crates/arazzo-generate/src/crud.rs:397-414 | an operation with at most one path parameter lies in exactly one bucket, any other in none |
| ResourceGrouping.InPositions | crates/arazzo-generate/src/crud.rs:397-414 | a bucket lists its operations in document order, each as often as the document does |
| ResourceGrouping.FillBuckets | crates/arazzo-generate/src/crud.rs:393-414 | the two maps hold each bucket's operations in document order, and the warnings name the skipped paths in order |
| ResourceGrouping.SkippedExact | crates/arazzo-generate/src/crud.rs:397-406 | one path is set aside for each operation with two parameters or more in its path, in document order |
| ResourceGrouping.BuildGroup | crates/arazzo-generate/src/crud.rs:425-499 | the two loops fill a group from its buckets |
| ResourceGrouping.LastWithIs | crates/arazzo-generate/src/crud.rs:441-499 | a slot holds the last operation of its method, if there is one |
| ResourceGrouping.UpdateExact | crates/arazzo-generate/src/crud.rs:474-499 | the update is the last PUT if there is one, else the first PATCH, else missing |
| ResourceGrouping.SortSorts | crates/arazzo-generate/src/crud.rs:506 | sorting by path gives a strictly sorted permutation |
| ResourceGrouping.PathOrder | crates/arazzo-generate/src/crud.rs:506 | the byte order in which groups are sorted is the order of the characters at the first difference |
| ResourceGrouping.CollectOperations | crates/arazzo-generate/src/crud.rs:368-392 | the loops over path items and methods compute the list of operations |
| DocumentOperations.CollectExact | crates/arazzo-generate/src/crud.rs:368-392 | an operation is collected under a path and a method iff some path item of that path has it under that method |
| DocumentOperations.CollectOrder | crates/arazzo-generate/src/crud.rs:368-392 | each operation once, in document order and within one item GET, POST, PUT, PATCH, DELETE |
| DocumentOperations.BucketExact | crates/arazzo-generate/src/crud.rs:327-350 | read off the segments of the path: set aside with two parameters, an item of what stands before its last segment when that is its one parameter, else a collection |
| DocumentOperations.TrailingExact | crates/arazzo-generate/src/crud.rs:333-340 | the trailing parameter is what the last segment has between braces |
| DocumentOperations.GroupSlots | crates/arazzo-generate/src/crud.rs:442-498 | read off the path items of a document: create and list are the POST and GET of the collection path, read and delete the GET and DELETE of its item paths, the last one winning; update is their last PUT, and their first PATCH where there is none |
| ResourceGrouping.GroupResources | crates/arazzo-generate/src/crud.rs:361-508 | whatever order the path set is walked in, the result is the groups of at least two steps, one per collection path, strictly sorted |
| ResourceGrouping.GroupingUnique | crates/arazzo-generate/src/crud.rs:416-508 | there is only one such list, so the walk's order cannot show |
| ResourceGrouping.GroupWellFormed | crates/arazzo-generate/src/crud.rs:425-500 | id parameter and item path come together, item slots imply them, collection slots lie on the collection path |
| CrudWorkflow.FindIdInResponse | crates/arazzo-generate/src/crud.rs:618-650 | the loops compute the search over the successful responses, and find only id-like names |
| CrudWorkflow.IdFieldExact | crates/arazzo-generate/src/crud.rs:606-650 | a field is found iff it is the first id-like property with no unresolved successful response before it |
| CrudWorkflow.LooksLikeIdExact | crates/arazzo-generate/src/crud.rs:639-642 | the id-like names are `id` and those that end in `Id`, `_id` or `ID` |
| CrudWorkflow.DetectAuthExact | crates/arazzo-generate/src/crud.rs:520-570 | an API key is sent under its own name and place with an input of the scheme's name; bearer and basic, in any case of letters, as an Authorization header with their input; nothing otherwise |
| CrudScoping.AuthReadsOwnInput | crates/arazzo-generate/src/crud.rs:520-570 | a detected requirement reads as the input it declares, and as no other, iff that input's name is an identifier |
| CrudWorkflow.BuildWorkflow | crates/arazzo-generate/src/crud.rs:682-875 | builds the workflow of the group's slots in order, or the first refusal |
| GeneratedWorkflows.WorkflowExact | crates/arazzo-generate/src/crud.rs:606-939 | the workflow field by field: a step for each operation in the order create, list, read, update, delete, with its target, the id parameter on item steps and the id output of the creation; the inputs asked for, the parameters sent and the output |
| CrudWorkflow.StepsExact | crates/arazzo-generate/src/crud.rs:743-853 | one step a slot, in order |
| CrudDocuments.TargetsReadBack | crates/arazzo-generate/src/crud.rs:878-888 | every step's target parses back to its operation's id, or to its path and method, under the source name |
| CrudWorkflow.RefusedExactly | crates/arazzo-generate/src/crud.rs:682-888 | refused iff there is a step to build and the source name is not strict |
| CrudWorkflow.IdsDistinct | crates/arazzo-generate/src/crud.rs:743-853 | step ids are distinct whatever the resource is called |
| CrudScoping.ScopedExactly | crates/arazzo-generate/src/crud.rs:682-875 | every reference reads, by the grammar, as an output of an earlier step or a declared input, every required input is declared and step ids differ, iff somebody supplies the id and the names in the references are ones the grammar admits |
| CrudScoping.RequiredOnce | crates/arazzo-generate/src/crud.rs:692-731 | required names are as many as declared properties unless the credential and the id asked for share a name |
| CrudDocuments.RequiredTwiceExample | crates/arazzo-generate/src/crud.rs:692-731 | an API key scheme called `id`, with items read and deleted but not created, requires `id` twice |
| CrudDocuments.GeneratedScoped | crates/arazzo-generate/src/crud.rs:56-70 | under a strict source name every group of every document gives a workflow, well scoped iff the names in its references are ones the grammar admits |
| CrudDocuments.DottedNameExample | crates/arazzo-generate/src/crud.rs:855-861 | for `/reports.daily` the workflow's output is a text the grammar does not read |
| CrudDocuments.OutputReadsField | crates/arazzo-generate/src/crud.rs:918-925 | the create step's output points at exactly the id field, whatever characters its name has, and reads as an expression iff the name has no brace |
| CrudDocuments.BracedFieldExample | crates/arazzo-generate/src/crud.rs:918-925 | for `/reports`, created with a response whose one property is `{x}Id`, the create step of the workflow has the output `$response.body#/{x}Id`, which the grammar does not read |
| CrudDocuments.FillsPathExactly | crates/arazzo-generate/src/crud.rs:743-853 | for every step: a create or list step fills its path iff the path has no parameter, an item step iff all parameters of its path are called as the one that ends the group's first item path |
| CrudDocuments.PlainFillsExactly | crates/arazzo-generate/src/crud.rs:743-853 | where parameters are whole segments: iff the collection path has none, or the item's own trailing parameter is that of the first item path |
| CrudDocuments.InnerParameter | crates/arazzo-generate/src/crud.rs:745-769 | a collection path with one inner parameter gives a create and a list step that leave it unfilled |
| CrudDocuments.InnerParameterExample | crates/arazzo-generate/src/crud.rs:745-769 | the document with GET and POST at `/users/{id}/posts` has one group there, and both steps of its workflow lack `id` |
| CrudDocuments.OtherName | crates/arazzo-generate/src/crud.rs:771-853 | items read and deleted under different parameter names leave the delete step's parameter unfilled |
| CrudDocuments.OtherNameExample | crates/arazzo-generate/src/crud.rs:771-853 | the document with GET at `/a/{id}` and DELETE at `/a/{key}` has one group at `/a`, and the delete step of its workflow lacks `key` |
| CrudDocuments.WorkflowIds | crates/arazzo-generate/src/crud.rs:61-70 | the workflows of a document have distinct ids iff no two of its collection paths are called after the same segment |
| CrudDocuments.SameIdExample | crates/arazzo-generate/src/crud.rs:61-70 | `/v1/users` and `/v2/users` give two workflows of one id |
| ResourceGrouping.ResourceNameExact | crates/arazzo-generate/src/crud.rs:352-359 | a resource is called after the last segment that is neither empty nor starts with a brace, whatever stands around it, or `resource`; never the empty text |
| CrudWorkflow.BuildWorkflows | crates/arazzo-generate/src/crud.rs:64-70 | one workflow a group in order, or the first refusal |
| References.StepOutputReads | crates/arazzo-expr/grammar/arazzo-1.1-runtime-expression.abnf:36-37 | a step output reference reads back iff the step id is an `identifier-strict` and the output's name an `identifier` |
| References.InputReads | crates/arazzo-expr/grammar/arazzo-1.1-runtime-expression.abnf:30-32 | an input reference reads back, and as no other input, iff the name is an `identifier` |
| References.NamedExact | crates/arazzo-expr/grammar/arazzo-1.1-runtime-expression.abnf:30-33 | a name is an identifier, or one before the first `#` and a pointer without braces behind it |
| References.IdentifierExact | crates/arazzo-expr/grammar/arazzo-1.1-runtime-expression.abnf:62 | an identifier is not empty and made of strict characters and dots |
| References.BodyReads | crates/arazzo-expr/grammar/arazzo-1.1-runtime-expression.abnf:26 | a response body reference reads back iff its pointer is one of the grammar, which has no braces |
| SchemaRefs.ResolveRef | crates/arazzo-generate/src/refs.rs:7-62 | follows references until an item, a foreign or unknown name, or a name visited before; ends on every component map |
| SchemaRefs.ResolveExact | crates/arazzo-generate/src/refs.rs:7-62 | finds an item iff some finite chain of local references reaches it |
| Strings.StripExact | crates/arazzo-generate/src/refs.rs:15 | what is left behind a prefix is the rest of exactly the texts that start with it |
| Examples.GenerateExample | crates/arazzo-generate/src/examples.rs:11-28 | ends on recursive schemas with the example of what the reference resolves to, or null |
| Examples.FirstEnumExact | crates/arazzo-generate/src/examples.rs:117-119 | the first value listed, and none only when no entry is a value |
| Examples.ExplicitFirst | crates/arazzo-generate/src/examples.rs:11-58 | the schema's own example, else its default, else one by its type; null beyond the depth limit and for a reference that leads nowhere |
| Examples.StringExact | crates/arazzo-generate/src/examples.rs:66-72 | an enumeration value wins over the heuristics; without one the text meets its length bounds unless they conflict |
| Examples.NumberExact | crates/arazzo-generate/src/examples.rs:73-84 | the first number listed, else one that meets the minimum, and the maximum iff the bounds leave room for it |
| Examples.BoundsExact | crates/arazzo-generate/src/examples.rs:122-166 | the number made up always meets the minimum; it meets the maximum iff the least number it may be fits below it, or, without a minimum, iff the maximum is not an excluded 1 |
| Examples.ExcludedOneExample | crates/arazzo-generate/src/examples.rs:129-141 | with only a maximum of 1, excluded, 1 is made up although 0 would do |
| Examples.BooleanExact | crates/arazzo-generate/src/examples.rs:85-90 | the first flag listed, else true |
| Examples.AnyExact | crates/arazzo-generate/src/examples.rs:167-193 | without a type, an object when there are properties, else a value of the hinted scalar type, else null |
| Examples.ArrayExact | crates/arazzo-generate/src/examples.rs:91-109 | one to five items, as many as `minItems` asks for within that range, all the example of the item type |
| Examples.GenerateObjectExample | crates/arazzo-generate/src/examples.rs:195-233 | the loops put the required properties, then the first five others |
| Examples.ObjectExact | crates/arazzo-generate/src/examples.rs:195-233 | a member for exactly the required properties and the first five others, each holding its property's example, names distinct |
| Examples.NestingBound | crates/arazzo-generate/src/examples.rs:11-233 | an example made at a depth nests at most 6 less that depth, or 5 more than the deepest explicit example less that depth |
| Examples.BodyNesting | crates/arazzo-generate/src/examples.rs:11-233 | without explicit examples or defaults a body nests at most six containers |
| Examples.SelfReferenceNests | crates/arazzo-generate/src/examples.rs:11-28 | a schema that contains itself reaches the bound at every depth |
| Examples.ApplyLengthConstraints | crates/arazzo-generate/src/examples.rs:320-336 | pads to the least length and cuts to the greatest, which wins |
| Examples.Fit | crates/arazzo-generate/src/examples.rs:320-336 | the result meets the greatest length, and the least when the two do not conflict, and extends or shortens the text |
| HoverSpans.FindTokenStart | vscode-arazzo-debug/src/evaluatableExpression.ts:236-253 | finds the start of the token the cursor stands in, iff there is one |
| HoverSpans.BoundaryExact | vscode-arazzo-debug/src/evaluatableExpression.ts:236-261 | the units that end a token, one by one |
| HoverSpans.OneToken | vscode-arazzo-debug/src/evaluatableExpression.ts:236-253 | there is at most one |
| HoverSpans.FindExpressionTokenEnd | vscode-arazzo-debug/src/evaluatableExpression.ts:255-261 | the first boundary or the end of the line |
| HoverSpans.PrefixThroughDelimitedSegment | vscode-arazzo-debug/src/evaluatableExpression.ts:127-146 | ends at the first delimiter at or behind the cursor, or the end |
| HoverSpans.PrefixThroughJsonPointerSegment | vscode-arazzo-debug/src/evaluatableExpression.ts:148-177 | ends with the pointer segment of the cursor |
| HoverSpans.NarrowRuntimeExpression | vscode-arazzo-debug/src/evaluatableExpression.ts:108-125 | the span for a cursor before or behind the `#` |
| HoverSpans.NarrowExact | vscode-arazzo-debug/src/evaluatableExpression.ts:108-177 | where the span ends: with the dotted part of the cursor up to the `#`; behind it before the pointer, with the reference token of the cursor, or with the whole token when no pointer follows |
| HoverSpans.FindInlineExpression | vscode-arazzo-debug/src/evaluatableExpression.ts:81-106 | the narrowed span of the `$` token if there is one, else the `//` token the key allows, else none |
| HoverSpans.CursorsOfToken | vscode-arazzo-debug/src/evaluatableExpression.ts:236-261 | the cursors of a `$` token run from its start to its last unit, and to the end of the line behind it |
| HoverSpans.SpansGrow | vscode-arazzo-debug/src/evaluatableExpression.ts:81-177 | moving right within one token, spans are prefixes of it from the same `$`, ends do not decrease, and the cursor is at most one past the end |

## Left out

- The scheduler, retry engine, replay, HTTP and Kafka clients, threads and channels, the file system, environment and command line.
- Canonicalisation: `canonical` is a parameter of `RelativePaths.Resolve`, and `RelativePaths.Locates` says what is assumed of it: a path that exists has a canonical path, a root and names, of the place where the system finds it, links included. File names are Unicode text and prefixes such as drive letters are absent.
- The Runtime Expression grammar beyond inputs, step outputs and the response body, JSON printing and JSON Pointer lookup in values: parameters of the model. Warning messages are kept as structured notices, not wording.
- Text in the expression scanner is held as UTF-8 bytes; ASCII case folding is modelled, full Unicode case folding is not needed by the code that is.
- Interpolation.LocalStepOutputReferences: the mode for simple conditions is absent, because it needs the condition parser.
- The simple-condition parser and evaluator, and the regular expression based string interpolation.
- The decimal to binary64 rounding of the standard library: `round` is a parameter of `NumericComparison.ParseNumber`.
- Which YAML mappings are Selector Objects: the `Admission` parameter of `ExpressionSites` gives the context of those admitted.
- JSON serialization in the framing writers (the payload is given as text), flushing, input/output errors, interrupted reads and the sequence numbers of outgoing messages.
- JSONPath parsing and evaluation behind the admission budgets.
- Version checks, server URLs, source name derivation and warnings other than skipped paths in the generator.
- CrudWorkflow.BuildWorkflow: descriptions, summaries, request bodies, success criteria and failure actions of the steps, and which status code is expected, are absent, because nothing else refers to them; the input schema is its property names and required list.
- Which object properties a response schema resolves to: `CrudWorkflow.Schema` gives the outcome of the resolution.
- String heuristics by format and field name: a parameter of `Examples`. The order of the members of a generated object is not modelled: the program's map sorts them.
- The quoted and keyed forms of hover expressions, and the regular expressions for keys and conditions, which are parameters of `HoverSpans`; cursors beyond the end of the line.
- Examples.NumberExact: numbers are reals, so the integer and floating forms of an example are not told apart, and neither the overflow of one above the greatest integer nor the rounding of one above a large float occurs.
