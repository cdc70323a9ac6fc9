/** Step and Workflow `dependsOn` lists: what an entry names, and the two cycle checks over them. */
module DependsOn {
  import opened Options
  import opened Strings
  import opened SourceReferences
  import opened DependencyCycles

  // ----- Step dependency references -----

  datatype StepDependency = LocalStep(id: string) | CrossWorkflow | ExternalSource | InvalidStep

  function ClassifyStepDependency(value: string): StepDependency {
    if value == "" then InvalidStep
    else if !("$" <= value) then LocalStep(value)
    else
      var parts := Split(value, '.');
      if |parts| == 4 && parts[0] == "$workflows" && parts[2] == "steps" && parts[1] != "" && parts[3] != "" then
        CrossWorkflow
      else if |parts| == 5 && parts[0] == "$sourceDescriptions" && parts[3] == "steps"
              && parts[1] != "" && parts[2] != "" && parts[4] != "" then
        ExternalSource
      else InvalidStep
  }

  predicate IsSegment(s: string) {
    s != "" && '.' !in s
  }

  ghost predicate IsCrossWorkflow(value: string, workflow: string, step: string) {
    IsSegment(workflow) && IsSegment(step) && value == "$workflows." + workflow + ".steps." + step
  }

  ghost predicate IsExternal(value: string, source: string, workflow: string, step: string) {
    IsSegment(source) && IsSegment(workflow) && IsSegment(step) &&
    value == "$sourceDescriptions." + source + "." + workflow + ".steps." + step
  }

  lemma Join4(a: string, b: string, c: string, d: string)
    ensures Join([a, b, c, d], '.') == a + "." + b + "." + c + "." + d
  {
    assert [a, b, c, d][1..] == [b, c, d] && [b, c, d][1..] == [c, d] && [c, d][1..] == [d];
    assert Join([c, d], '.') == c + "." + d;
    assert Join([b, c, d], '.') == b + "." + (c + "." + d);
  }

  lemma Join5(a: string, b: string, c: string, d: string, e: string)
    ensures Join([a, b, c, d, e], '.') == a + "." + b + "." + c + "." + d + "." + e
  {
    Join4(b, c, d, e);
    assert [a, b, c, d, e][1..] == [b, c, d, e];
    assert Join([a, b, c, d, e], '.') == a + "." + (b + "." + c + "." + d + "." + e);
  }

  /** Splitting at dots yields four pieces exactly when the text is four dot-free pieces. */
  lemma Split4(value: string, a: string, b: string, c: string, d: string)
    ensures Split(value, '.') == [a, b, c, d] <==>
            value == a + "." + b + "." + c + "." + d && Free([a, b, c, d], '.')
  {
    Join4(a, b, c, d);
    JoinSplit(value, '.');
    if Free([a, b, c, d], '.') {
      SplitJoin([a, b, c, d], '.');
    }
  }

  lemma Split5(value: string, a: string, b: string, c: string, d: string, e: string)
    ensures Split(value, '.') == [a, b, c, d, e] <==>
            value == a + "." + b + "." + c + "." + d + "." + e && Free([a, b, c, d, e], '.')
  {
    Join5(a, b, c, d, e);
    JoinSplit(value, '.');
    if Free([a, b, c, d, e], '.') {
      SplitJoin([a, b, c, d, e], '.');
    }
  }

  /** The cross-workflow form is exactly the references with nonempty dot-free segments. */
  lemma CrossWorkflowExact(value: string)
    ensures ClassifyStepDependency(value).CrossWorkflow? <==> exists w, s :: IsCrossWorkflow(value, w, s)
  {
    hide Split, Join;
    var parts := Split(value, '.');
    if ClassifyStepDependency(value).CrossWorkflow? {
      var w, s := parts[1], parts[3];
      assert parts == ["$workflows", w, "steps", s];
      Split4(value, "$workflows", w, "steps", s);
      assert Free(parts, '.');
      assert value == "$workflows." + w + ".steps." + s;
      assert IsCrossWorkflow(value, w, s);
    }
    forall w, s | IsCrossWorkflow(value, w, s) ensures ClassifyStepDependency(value).CrossWorkflow? {
      Split4(value, "$workflows", w, "steps", s);
      assert value == "$workflows" + "." + w + "." + "steps" + "." + s;
    }
  }

  lemma Dotted5(head: string, a: string, b: string, c: string, mid: string, d: string, e: string)
    requires head == a + "." && mid == "." + d + "."
    ensures head + b + "." + c + mid + e == a + "." + b + "." + c + "." + d + "." + e
  {}

  lemma ExternalParts(value: string, n: string, w: string, s: string)
    ensures IsExternal(value, n, w, s) <==>
            Split(value, '.') == ["$sourceDescriptions", n, w, "steps", s] && n != "" && w != "" && s != ""
    ensures IsExternal(value, n, w, s) ==> value != "" && "$" <= value
  {
    hide Split, Join;
    var parts := ["$sourceDescriptions", n, w, "steps", s];
    Split5(value, "$sourceDescriptions", n, w, "steps", s);
    Dotted5("$sourceDescriptions.", "$sourceDescriptions", n, w, ".steps.", "steps", s);
    assert Free(parts, '.') <==> '.' !in parts[1] && '.' !in parts[2] && '.' !in parts[4];
  }

  /** So is the external form. */
  lemma ExternalSourceExact(value: string)
    ensures ClassifyStepDependency(value).ExternalSource? <==> exists n, w, s :: IsExternal(value, n, w, s)
  {
    hide Split, IsExternal;
    var parts := Split(value, '.');
    if ClassifyStepDependency(value).ExternalSource? {
      assert parts == ["$sourceDescriptions", parts[1], parts[2], "steps", parts[4]];
      ExternalParts(value, parts[1], parts[2], parts[4]);
      assert IsExternal(value, parts[1], parts[2], parts[4]);
    }
    forall n, w, s | IsExternal(value, n, w, s) ensures ClassifyStepDependency(value).ExternalSource? {
      ExternalParts(value, n, w, s);
    }
  }

  // ----- The graphs -----

  /** A step or a workflow, by its id and its `dependsOn` list. */
  datatype Item = Item(id: string, dependsOn: seq<string>)

  /** Index by id; of two items with one id, the later wins. */
  function Positions(items: seq<Item>): map<string, nat> {
    if items == [] then map[]
    else
      var last := |items| - 1;
      Positions(items[..last])[items[last].id := last]
  }

  predicate IsLastWithId(items: seq<Item>, i: int) {
    0 <= i < |items| && forall j :: i < j < |items| ==> items[j].id != items[i].id
  }

  lemma {:induction false} PositionsExact(items: seq<Item>, id: string, i: nat)
    ensures Lookup(Positions(items), id) == Some(i) <==> IsLastWithId(items, i) && items[i].id == id
  {
    if items != [] {
      var last := |items| - 1;
      PositionsExact(items[..last], id, i);
      assert i < last ==> items[..last][i] == items[i];
      assert i < last && items[last].id != items[i].id ==> (IsLastWithId(items, i) <==> IsLastWithId(items[..last], i));
    }
  }

  function Lists(items: seq<Item>): (lists: seq<seq<string>>)
    ensures |lists| == |items| && forall i :: 0 <= i < |items| ==> lists[i] == items[i].dependsOn
  {
    seq(|items|, i requires 0 <= i < |items| => items[i].dependsOn)
  }

  function Lookup(positions: map<string, nat>, id: string): Option<nat> {
    if id in positions then Some(positions[id]) else None
  }

  function StepGraph(steps: seq<Item>): Graph {
    var positions := Positions(steps);
    Graph(Lists(steps), dependency =>
      match ClassifyStepDependency(dependency)
      case LocalStep(id) => Lookup(positions, id)
      case _ => None)
  }

  function WorkflowGraph(workflows: seq<Item>): Graph {
    var positions := Positions(workflows);
    Graph(Lists(workflows), dependency =>
      match ClassifyWorkflowDependency(dependency)
      case Local(id) => Lookup(positions, id)
      case _ => None)
  }

  /** Item `i` lists, as plain text, the id that item `j` is the last to carry. */
  ghost predicate DependsLocally(items: seq<Item>, i: nat, j: nat) {
    i < |items| && IsLastWithId(items, j) && items[j].id in items[i].dependsOn && items[j].id != ""
        && items[j].id[0] != '$'
  }

  /** An edge of either graph is a local dependency. */
  lemma LocalEdges(items: seq<Item>, i: nat, j: nat)
    ensures Edge(StepGraph(items), i, j) <==> DependsLocally(items, i, j)
    ensures Edge(WorkflowGraph(items), i, j) <==> DependsLocally(items, i, j)
  {
    hide Positions, Split, ParseSourceReference;
    forall id ensures Lookup(Positions(items), id) == Some(j) <==> IsLastWithId(items, j) && items[j].id == id {
      PositionsExact(items, id, j);
    }
    if DependsLocally(items, i, j) {
      var k :| 0 <= k < |items[i].dependsOn| && items[i].dependsOn[k] == items[j].id;
      assert Target(StepGraph(items), i, k) == Some(j);
      assert Target(WorkflowGraph(items), i, k) == Some(j);
    }
  }

  lemma GraphFacts(items: seq<Item>)
    ensures |StepGraph(items).dependsOn| == |WorkflowGraph(items).dependsOn| == |items|
    ensures Valid(StepGraph(items)) && Valid(WorkflowGraph(items))
  {
    hide Positions, Split, ParseSourceReference;
    forall id, i | Lookup(Positions(items), id) == Some(i) ensures i < |items| {
      PositionsExact(items, id, i);
    }
  }

  // ----- The checks -----

  /** A nonempty run of items, each depending locally on the next. */
  ghost predicate IsChain(items: seq<Item>, p: seq<nat>) {
    |p| > 0 && p[0] < |items| && forall i :: 0 <= i < |p| - 1 ==> DependsLocally(items, p[i], p[i + 1])
  }

  ghost predicate IsCircle(items: seq<Item>, q: seq<nat>) {
    IsChain(items, q) && |q| > 1 && q[0] == q[|q| - 1]
  }

  lemma WalksAreChains(items: seq<Item>, p: seq<nat>)
    ensures Walk(StepGraph(items), p) <==> IsChain(items, p)
    ensures Walk(WorkflowGraph(items), p) <==> IsChain(items, p)
  {
    hide DependsLocally, Edge, Positions;
    forall i | 0 <= i < |p| - 1
      ensures Edge(StepGraph(items), p[i], p[i + 1]) <==> DependsLocally(items, p[i], p[i + 1])
      ensures Edge(WorkflowGraph(items), p[i], p[i + 1]) <==> DependsLocally(items, p[i], p[i + 1])
    {
      LocalEdges(items, p[i], p[i + 1]);
    }
  }

  /** A cycle is reachable when every node is a start exactly when some item depends, link by link, on itself. */
  lemma StepCycles(steps: seq<Item>, starts: seq<nat>)
    requires |starts| == |steps| && forall i :: 0 <= i < |starts| ==> starts[i] == i
    ensures HasReachableCycle(StepGraph(steps), starts) <==> exists q :: IsCircle(steps, q)
  {
    var g := StepGraph(steps);
    forall q ensures Walk(g, q) <==> IsChain(steps, q) {
      WalksAreChains(steps, q);
    }
    hide StepGraph, IsChain;
    if q :| IsCircle(steps, q) {
      var v := q[0];
      assert v < |steps| by { ChainStart(steps, q); }
      WalksAreChains(steps, [v]);
      assert starts[v] == v && ReachableBy(g, starts, v, [v]) by { ChainOfOne(steps, v); }
      assert OnCycle(g, v) && Reachable(g, starts, v);
    }
    if HasReachableCycle(g, starts) {
      var v :| Reachable(g, starts, v) && OnCycle(g, v);
      var q :| Walk(g, q) && |q| > 1 && q[0] == v == q[|q| - 1];
      assert IsCircle(steps, q);
    }
  }

  lemma ChainStart(items: seq<Item>, p: seq<nat>)
    requires IsChain(items, p)
    ensures p[0] < |items|
  {}

  lemma ChainOfOne(items: seq<Item>, v: nat)
    requires v < |items|
    ensures IsChain(items, [v])
  {}

  lemma ChainReaches(workflows: seq<Item>, start: nat, p: seq<nat>, q: seq<nat>)
    requires IsChain(workflows, p) && p[0] == start && IsCircle(workflows, q) && q[0] == p[|p| - 1]
    ensures HasReachableCycle(WorkflowGraph(workflows), [start])
  {
    var g := WorkflowGraph(workflows);
    hide WorkflowGraph, IsChain, Walk;
    WalksAreChains(workflows, p);
    WalksAreChains(workflows, q);
    assert ReachableBy(g, [start], q[0], p) && OnCycle(g, q[0]);
    assert Reachable(g, [start], q[0]);
  }

  lemma ReachesByChain(workflows: seq<Item>, start: nat) returns (p: seq<nat>, q: seq<nat>)
    requires HasReachableCycle(WorkflowGraph(workflows), [start])
    ensures IsChain(workflows, p) && p[0] == start && IsCircle(workflows, q) && q[0] == p[|p| - 1]
  {
    var g := WorkflowGraph(workflows);
    hide WorkflowGraph, IsChain, Walk;
    var v :| Reachable(g, [start], v) && OnCycle(g, v);
    p :| ReachableBy(g, [start], v, p);
    q :| Walk(g, q) && |q| > 1 && q[0] == v == q[|q| - 1];
    WalksAreChains(workflows, p);
    WalksAreChains(workflows, q);
  }

  /** Reachable from one workflow: a chain from it ends in an item that depends, link by link, on itself. */
  lemma WorkflowCycles(workflows: seq<Item>, start: nat)
    ensures HasReachableCycle(WorkflowGraph(workflows), [start]) <==>
            exists p, q :: IsChain(workflows, p) && p[0] == start && IsCircle(workflows, q) && q[0] == p[|p| - 1]
  {
    hide HasReachableCycle, DependsLocally;
    if p, q :| IsChain(workflows, p) && p[0] == start && IsCircle(workflows, q) && q[0] == p[|p| - 1] {
      ChainReaches(workflows, start, p, q);
    }
    if HasReachableCycle(WorkflowGraph(workflows), [start]) {
      var p, q := ReachesByChain(workflows, start);
    }
  }

  /** Yes exactly when some step depends, link by link, on itself. */
  method LocalStepDependsOnHasCycle(steps: seq<Item>) returns (cyclic: bool)
    ensures cyclic <==> exists q :: IsCircle(steps, q)
  {
    hide StepGraph, HasReachableCycle;
    GraphFacts(steps);
    var starts := seq(|steps|, i => i);
    var found, _, _ := GraphHasCycle(StepGraph(steps), starts);
    StepCycles(steps, starts);
    return found;
  }

  /** Yes exactly when this workflow reaches one that depends, link by link, on itself. */
  method LocalWorkflowDependsOnHasCycle(workflows: seq<Item>, start: nat) returns (cyclic: bool)
    ensures cyclic <==>
            exists p, q :: IsChain(workflows, p) && p[0] == start && IsCircle(workflows, q) && q[0] == p[|p| - 1]
  {
    hide WorkflowGraph, HasReachableCycle;
    if start >= |workflows| {
      return false;
    }
    GraphFacts(workflows);
    var found, _, _ := GraphHasCycle(WorkflowGraph(workflows), [start]);
    WorkflowCycles(workflows, start);
    return found;
  }
}
