/** The three-colour depth-first search behind the Step and Workflow `dependsOn` cycle checks. */
module DependencyCycles {
  import opened Options

  datatype State = Unvisited | InProgress | Done

  /** Node `i` lists `dependsOn[i]`; `resolve` maps an entry to a local node, or skips it. */
  datatype Graph = Graph(dependsOn: seq<seq<string>>, resolve: string -> Option<nat>)

  /** A node, and how many of its `dependsOn` entries the search has passed. */
  datatype Frame = Frame(node: nat, cursor: nat)

  ghost predicate Valid(g: Graph) {
    forall i, k :: 0 <= i < |g.dependsOn| && 0 <= k < |g.dependsOn[i]| ==>
      Target(g, i, k).Some? ==> Target(g, i, k).value < |g.dependsOn|
  }

  ghost function Target(g: Graph, i: nat, k: nat): Option<nat>
    requires i < |g.dependsOn| && k < |g.dependsOn[i]|
  {
    g.resolve(g.dependsOn[i][k])
  }

  ghost predicate Edge(g: Graph, i: nat, j: nat) {
    i < |g.dependsOn| && exists k: nat :: k < |g.dependsOn[i]| && Target(g, i, k) == Some(j)
  }

  /** A nonempty walk along resolved entries. */
  ghost predicate Walk(g: Graph, p: seq<nat>) {
    |p| > 0 && p[0] < |g.dependsOn| && forall i :: 0 <= i < |p| - 1 ==> Edge(g, p[i], p[i + 1])
  }

  ghost predicate ReachableBy(g: Graph, starts: seq<nat>, v: nat, p: seq<nat>) {
    Walk(g, p) && p[0] in starts && p[|p| - 1] == v
  }

  ghost predicate Reachable(g: Graph, starts: seq<nat>, v: nat) {
    exists p :: ReachableBy(g, starts, v, p)
  }

  ghost predicate OnCycle(g: Graph, v: nat) {
    exists q :: Walk(g, q) && |q| > 1 && q[0] == v == q[|q| - 1]
  }

  ghost predicate HasReachableCycle(g: Graph, starts: seq<nat>) {
    exists v :: Reachable(g, starts, v) && OnCycle(g, v)
  }

  /** `order` lists exactly the nodes reachable from `starts`, once each, every node after all it depends on. */
  ghost predicate TopologicalOrder(g: Graph, starts: seq<nat>, order: seq<nat>) {
    && (forall v :: v in order <==> Reachable(g, starts, v))
    && Closed(g, order)
  }

  ghost predicate Closed(g: Graph, order: seq<nat>) {
    && (forall a :: 0 <= a < |order| ==> order[a] < |g.dependsOn|)
    && (forall a, b :: 0 <= a < b < |order| ==> order[a] != order[b])
    && (forall a, k :: 0 <= a < |order| && 0 <= k < |g.dependsOn[order[a]]| && Target(g, order[a], k).Some? ==>
         Target(g, order[a], k).value in order[..a])
  }

  // ----- What the search keeps -----

  ghost predicate OnStack(stack: seq<Frame>, v: nat) {
    exists i :: 0 <= i < |stack| && stack[i].node == v
  }

  ghost predicate StackInv(g: Graph, starts: seq<nat>, stack: seq<Frame>) {
    && (forall i :: 0 <= i < |stack| ==>
       stack[i].node < |g.dependsOn|
       && stack[i].cursor <= |g.dependsOn[stack[i].node]|)
    && (forall i, j :: 0 <= i < j < |stack| ==> stack[i].node != stack[j].node)
    && (forall i :: 0 <= i < |stack| - 1 ==>
         stack[i].cursor > 0 && Target(g, stack[i].node, stack[i].cursor - 1) == Some(stack[i + 1].node))
    && (stack != [] ==> stack[0].node in starts)
  }

  /** Every entry a frame has passed leads to a finished node, or to the next frame. */
  ghost predicate Scanned(g: Graph, starts: seq<nat>, stack: seq<Frame>, order: seq<nat>)
    requires StackInv(g, starts, stack)
  {
    forall i, k ::
      (0 <= i < |stack| && 0 <= k < stack[i].cursor - (if i < |stack| - 1 then 1 else 0)
          && Target(g, stack[i].node, k).Some?)
      ==> Target(g, stack[i].node, k).value in order
  }

  ghost predicate Inv(g: Graph, starts: seq<nat>, states: seq<State>, stack: seq<Frame>, order: seq<nat>) {
    && |states| == |g.dependsOn|
    && StackInv(g, starts, stack)
    && (forall v :: 0 <= v < |states| ==> (states[v] == InProgress <==> OnStack(stack, v)))
    && (forall v :: 0 <= v < |states| ==> (states[v] == Done <==> v in order))
    && Closed(g, order)
    && Scanned(g, starts, stack, order)
    && (forall v :: v in order ==> Reachable(g, starts, v))
  }

  ghost function Nodes(stack: seq<Frame>): (p: seq<nat>)
    ensures |p| == |stack| && forall i :: 0 <= i < |p| ==> p[i] == stack[i].node
  {
    seq(|stack|, i requires 0 <= i < |stack| => stack[i].node)
  }

  lemma StackIsWalk(g: Graph, starts: seq<nat>, stack: seq<Frame>)
    requires StackInv(g, starts, stack) && stack != []
    ensures ReachableBy(g, starts, stack[|stack| - 1].node, Nodes(stack))
  {
  }

  ghost predicate HasNext(g: Graph, f: Frame) {
    f.node < |g.dependsOn| && f.cursor < |g.dependsOn[f.node]|
  }

  /** What the top frame's next entry resolves to. */
  ghost function Next(g: Graph, stack: seq<Frame>): Option<nat>
    requires stack != [] && HasNext(g, stack[|stack| - 1])
  {
    var top := stack[|stack| - 1];
    Target(g, top.node, top.cursor)
  }

  lemma OnStackPush(stack: seq<Frame>, f: Frame)
    ensures forall u :: OnStack(stack + [f], u) <==> OnStack(stack, u) || u == f.node
  {
    var stack' := stack + [f];
    forall u ensures OnStack(stack', u) <==> OnStack(stack, u) || u == f.node {
      if OnStack(stack, u) {
        var i :| 0 <= i < |stack| && stack[i].node == u;
        assert stack'[i].node == u;
      }
      assert stack'[|stack|] == f;
    }
  }

  /** The search enters a start node. */
  lemma Enter(g: Graph, starts: seq<nat>, states: seq<State>, order: seq<nat>, v: nat)
    requires Inv(g, starts, states, [], order) && v < |states| && states[v] == Unvisited && v in starts
    ensures Inv(g, starts, states[v := InProgress], [Frame(v, 0)], order)
  {
    assert [] + [Frame(v, 0)] == [Frame(v, 0)];
    OnStackPush([], Frame(v, 0));
  }

  /** What the invariant says of the frames and of the top frame's next target. */
  lemma StackFacts(g: Graph, starts: seq<nat>, states: seq<State>, stack: seq<Frame>, order: seq<nat>)
    requires Valid(g) && Inv(g, starts, states, stack, order)
    ensures forall i, j :: 0 <= i < j < |stack| ==> stack[i].node != stack[j].node
    ensures forall i :: 0 <= i < |stack| ==> stack[i].node < |states| && states[stack[i].node] == InProgress
    ensures stack != [] && HasNext(g, stack[|stack| - 1]) && Next(g, stack).Some? ==> Next(g, stack).value < |states|
    ensures forall v :: 0 <= v < |states| ==> (states[v] == Done <==> v in order)
    ensures forall v :: 0 <= v < |states| ==> (states[v] == InProgress <==> OnStack(stack, v))
    ensures |states| == |g.dependsOn|
    ensures stack != [] ==> stack[|stack| - 1].cursor <= |g.dependsOn[stack[|stack| - 1].node]|
  {
    forall i | 0 <= i < |stack| ensures states[stack[i].node] == InProgress {
      assert OnStack(stack, stack[i].node);
    }
  }

  function Advance(stack: seq<Frame>): (stack': seq<Frame>)
    requires stack != []
  {
    var top := stack[|stack| - 1];
    stack[|stack| - 1 := Frame(top.node, top.cursor + 1)]
  }

  lemma OnStackAdvance(stack: seq<Frame>)
    requires stack != []
    ensures forall u :: OnStack(Advance(stack), u) <==> OnStack(stack, u)
  {
    var stack' := Advance(stack);
    forall u ensures OnStack(stack', u) <==> OnStack(stack, u) {
      assert forall i :: 0 <= i < |stack| ==> stack'[i].node == stack[i].node;
    }
  }

  /** The top frame passes an entry that resolves to nothing or to a finished node. */
  lemma Skip(g: Graph, starts: seq<nat>, states: seq<State>, stack: seq<Frame>, order: seq<nat>)
    requires Inv(g, starts, states, stack, order) && stack != []
    requires HasNext(g, stack[|stack| - 1])
    requires Next(g, stack).Some? ==> Next(g, stack).value in order
    ensures Inv(g, starts, states, Advance(stack), order)
  {
    hide Closed, Reachable;
    OnStackAdvance(stack);
  }

  lemma AdvanceStack(g: Graph, starts: seq<nat>, stack: seq<Frame>)
    requires StackInv(g, starts, stack) && stack != [] && HasNext(g, stack[|stack| - 1])
    ensures StackInv(g, starts, Advance(stack)) && |Advance(stack)| == |stack|
    ensures var top := Advance(stack)[|stack| - 1];
            top.cursor > 0 && Target(g, top.node, top.cursor - 1) == Next(g, stack)
  {}

  lemma PushStack(g: Graph, starts: seq<nat>, stack: seq<Frame>, v: nat)
    requires StackInv(g, starts, stack) && stack != [] && v < |g.dependsOn| && !OnStack(stack, v)
    requires var top := stack[|stack| - 1]; top.cursor > 0 && Target(g, top.node, top.cursor - 1) == Some(v)
    ensures StackInv(g, starts, stack + [Frame(v, 0)])
  {
    hide Target;
    assert forall i :: 0 <= i < |stack| ==> stack[i].node != v;
  }

  lemma PushScanned(g: Graph, starts: seq<nat>, stack: seq<Frame>, order: seq<nat>, v: nat)
    requires StackInv(g, starts, stack) && stack != [] && Scanned(g, starts, stack, order)
    requires StackInv(g, starts, Advance(stack) + [Frame(v, 0)])
    ensures Scanned(g, starts, Advance(stack) + [Frame(v, 0)], order)
  {
    hide Target;
    var stack' := Advance(stack) + [Frame(v, 0)];
    var last := |stack| - 1;
    assert forall i :: 0 <= i < last ==> stack'[i] == stack[i];
    assert stack'[last] == Frame(stack[last].node, stack[last].cursor + 1);
    assert stack'[last + 1].cursor == 0;
  }

  /** The top frame passes an entry that resolves to an unvisited node, which becomes the top. */
  lemma Descend(g: Graph, starts: seq<nat>, states: seq<State>, stack: seq<Frame>, order: seq<nat>, v: nat)
    requires Inv(g, starts, states, stack, order) && stack != []
    requires v < |states| && states[v] == Unvisited
    requires HasNext(g, stack[|stack| - 1]) && Next(g, stack) == Some(v)
    ensures Inv(g, starts, states[v := InProgress], Advance(stack) + [Frame(v, 0)], order)
  {
    hide Closed, Reachable, StackInv, Scanned, OnStack, Advance;
    OnStackAdvance(stack);
    OnStackPush(Advance(stack), Frame(v, 0));
    AdvanceStack(g, starts, stack);
    PushStack(g, starts, Advance(stack), v);
    PushScanned(g, starts, stack, order, v);
  }

  /** A node may finish once everything it depends on has. */
  lemma ClosedAppend(g: Graph, order: seq<nat>, v: nat)
    requires Closed(g, order) && v < |g.dependsOn| && v !in order
    requires forall k :: 0 <= k < |g.dependsOn[v]| && Target(g, v, k).Some? ==> Target(g, v, k).value in order
    ensures Closed(g, order + [v])
  {
    var order' := order + [v];
    forall a, k | 0 <= a < |order'| && 0 <= k < |g.dependsOn[order'[a]]| && Target(g, order'[a], k).Some?
      ensures Target(g, order'[a], k).value in order'[..a]
    {
      assert order'[..a] == order[..a];
      assert order[..|order|] == order;
    }
  }

  lemma PopStack(g: Graph, starts: seq<nat>, rest: seq<Frame>, top: Frame, order: seq<nat>)
    requires StackInv(g, starts, rest + [top]) && Scanned(g, starts, rest + [top], order)
    requires top.node < |g.dependsOn| && top.cursor == |g.dependsOn[top.node]|
    ensures StackInv(g, starts, rest) && Scanned(g, starts, rest, order + [top.node]) && !OnStack(rest, top.node)
    ensures forall k :: 0 <= k < |g.dependsOn[top.node]| && Target(g, top.node, k).Some? ==>
              Target(g, top.node, k).value in order
  {
    var stack := rest + [top];
    assert stack[|rest|] == top;
    assert forall i :: 0 <= i < |rest| ==> rest[i] == stack[i];
  }

  lemma PopFrame(g: Graph, starts: seq<nat>, rest: seq<Frame>, top: Frame, order: seq<nat>)
    requires StackInv(g, starts, rest + [top]) && Scanned(g, starts, rest + [top], order)
    requires Closed(g, order) && top.node !in order && top.node < |g.dependsOn| && top.cursor == |g.dependsOn[top.node]|
    ensures StackInv(g, starts, rest) && Scanned(g, starts, rest, order + [top.node])
    ensures Closed(g, order + [top.node]) && Reachable(g, starts, top.node) && !OnStack(rest, top.node)
  {
    hide StackInv, Scanned, Closed, OnStack, ReachableBy, Target;
    PopStack(g, starts, rest, top, order);
    ClosedAppend(g, order, top.node);
    StackIsWalk(g, starts, rest + [top]);
  }

  /** The top frame has passed every entry: its node is finished. */
  lemma Finish(g: Graph, starts: seq<nat>, states: seq<State>, rest: seq<Frame>, top: Frame, order: seq<nat>)
    requires Valid(g) && Inv(g, starts, states, rest + [top], order)
    requires top.node < |g.dependsOn| && top.cursor == |g.dependsOn[top.node]|
    ensures Inv(g, starts, states[top.node := Done], rest, order + [top.node])
  {
    hide StackInv, Scanned, Closed, Reachable, OnStack;
    var v := top.node;
    OnStackPush(rest, top);
    assert OnStack(rest + [top], v);
    assert v !in order by {
      StackFacts(g, starts, states, rest + [top], order);
    }
    PopFrame(g, starts, rest, top, order);
  }

  lemma StackLoopsBack(g: Graph, starts: seq<nat>, stack: seq<Frame>, i: nat)
    requires StackInv(g, starts, stack) && i < |stack| && Edge(g, stack[|stack| - 1].node, stack[i].node)
    ensures OnCycle(g, stack[i].node)
  {
    hide StackInv;
    var p := Nodes(stack);
    StackIsWalk(g, starts, stack);
    var q := p[i..] + [p[i]];
    forall m | 0 <= m < |q| - 1 ensures Edge(g, q[m], q[m + 1]) {
      if m < |q| - 2 {
        assert Edge(g, p[i + m], p[i + m + 1]);
      }
    }
    assert Edge(g, q[0], q[1]);
    assert Walk(g, q);
  }

  lemma StackReachable(g: Graph, starts: seq<nat>, stack: seq<Frame>, i: nat)
    requires StackInv(g, starts, stack) && i < |stack|
    ensures Reachable(g, starts, stack[i].node)
  {
    StackIsWalk(g, starts, stack[..i + 1]);
  }

  /** The top frame's next entry resolves to a node in progress. */
  lemma BackEdge(g: Graph, starts: seq<nat>, states: seq<State>, stack: seq<Frame>, order: seq<nat>, v: nat)
    requires Inv(g, starts, states, stack, order) && stack != []
    requires v < |states| && states[v] == InProgress
    requires HasNext(g, stack[|stack| - 1]) && Next(g, stack) == Some(v)
    ensures HasReachableCycle(g, starts)
  {
    hide Scanned, Closed, StackInv, Reachable, OnCycle;
    assert OnStack(stack, v);
    var i :| 0 <= i < |stack| && stack[i].node == v;
    StackLoopsBack(g, starts, stack, i);
    StackReachable(g, starts, stack, i);
  }

  // ----- What a finished search means -----

  lemma EdgeGoesBack(g: Graph, order: seq<nat>, a: nat, v: nat) returns (b: nat)
    requires Closed(g, order) && a < |order| && Edge(g, order[a], v)
    ensures b < a && order[b] == v
  {
    var k: nat :| k < |g.dependsOn[order[a]]| && Target(g, order[a], k) == Some(v);
    assert v in order[..a];
    b :| b < a && order[b] == v;
  }

  lemma {:induction false} WalkStaysInOrder(g: Graph, order: seq<nat>, p: seq<nat>, i: nat)
    requires Valid(g) && Closed(g, order) && Walk(g, p) && p[0] in order && i < |p|
    ensures exists a, b :: 0 <= b <= a < |order| && order[a] == p[0] && order[b] == p[i] && (i > 0 ==> b < a)
  {
    if i > 0 {
      hide Closed, Edge, Valid;
      WalkStaysInOrder(g, order, p, i - 1);
      var a, b :| 0 <= b <= a < |order| && order[a] == p[0] && order[b] == p[i - 1] && (i - 1 > 0 ==> b < a);
      assert Edge(g, p[i - 1], p[i - 1 + 1]);
      var c := EdgeGoesBack(g, order, b, p[i]);
    }
  }

  /** A topological order of everything reachable rules out a reachable cycle. */
  lemma OrderMeansAcyclic(g: Graph, starts: seq<nat>, order: seq<nat>)
    requires Valid(g) && TopologicalOrder(g, starts, order)
    ensures !HasReachableCycle(g, starts)
  {
    if HasReachableCycle(g, starts) {
      var v :| Reachable(g, starts, v) && OnCycle(g, v);
      var q :| Walk(g, q) && |q| > 1 && q[0] == v == q[|q| - 1];
      WalkStaysInOrder(g, order, q, |q| - 1);
    }
  }

  lemma FinishedIsTopological(g: Graph, starts: seq<nat>, states: seq<State>, order: seq<nat>)
    requires Valid(g) && Inv(g, starts, states, [], order)
    requires forall s :: s in starts ==> s in order
    ensures TopologicalOrder(g, starts, order)
  {
    forall v | Reachable(g, starts, v) ensures v in order {
      var p :| ReachableBy(g, starts, v, p);
      WalkStaysInOrder(g, order, p, |p| - 1);
    }
  }

  // ----- The amount of work -----

  function Sum(s: seq<nat>): nat {
    if s == [] then 0 else s[0] + Sum(s[1..])
  }

  function EntryCounts(g: Graph): (counts: seq<nat>)
    ensures |counts| == |g.dependsOn| && forall i :: 0 <= i < |counts| ==> counts[i] == |g.dependsOn[i]|
  {
    seq(|g.dependsOn|, i requires 0 <= i < |g.dependsOn| => |g.dependsOn[i]|)
  }

  lemma {:induction false} SumBump(s: seq<nat>, i: nat)
    requires i < |s|
    ensures Sum(s[i := s[i] + 1]) == Sum(s) + 1
  {
    if i > 0 {
      assert s[i := s[i] + 1][1..] == s[1..][i - 1 := s[1..][i - 1] + 1];
      SumBump(s[1..], i - 1);
    } else {
      assert s[i := s[i] + 1][1..] == s[1..];
    }
  }

  lemma {:induction false} SumZero(s: seq<nat>)
    requires forall i :: 0 <= i < |s| ==> s[i] == 0
    ensures Sum(s) == 0
  {
    if s != [] {
      SumZero(s[1..]);
    }
  }

  lemma {:induction false} SumBound(s: seq<nat>, t: seq<nat>)
    requires |s| == |t| && forall i :: 0 <= i < |s| ==> s[i] <= t[i] + 1
    ensures Sum(s) <= Sum(t) + |t|
  {
    if s != [] {
      SumBound(s[1..], t[1..]);
    }
  }

  /** `spent[v]` turns went to node `v`: one per entry passed, and one to finish it. */
  ghost predicate Spent(g: Graph, states: seq<State>, stack: seq<Frame>, spent: seq<nat>, turns: nat)
  {
    && |spent| == |states| == |g.dependsOn|
    && Sum(spent) == turns
    && (forall v :: 0 <= v < |spent| ==> spent[v] <= |g.dependsOn[v]| + (if states[v] == Done then 1 else 0))
    && (forall v :: 0 <= v < |spent| && states[v] == Unvisited ==> spent[v] == 0)
    && (forall i :: 0 <= i < |stack| ==> stack[i].node < |spent| && spent[stack[i].node] == stack[i].cursor)
  }

  /** Each node takes at most one turn for each entry and one to finish. */
  lemma SpentBound(g: Graph, states: seq<State>, stack: seq<Frame>, spent: seq<nat>, turns: nat)
    requires Spent(g, states, stack, spent, turns)
    ensures turns <= |g.dependsOn| + Sum(EntryCounts(g))
  {
    SumBound(spent, EntryCounts(g));
  }

  lemma SpentPush(g: Graph, states: seq<State>, stack: seq<Frame>, spent: seq<nat>, turns: nat, v: nat)
    requires Spent(g, states, stack, spent, turns) && v < |states| && states[v] == Unvisited
    ensures Spent(g, states[v := InProgress], stack + [Frame(v, 0)], spent, turns)
  {}

  lemma SpentSizes(g: Graph, states: seq<State>, stack: seq<Frame>, spent: seq<nat>, turns: nat)
    requires Spent(g, states, stack, spent, turns)
    ensures |states| == |spent| == |g.dependsOn|
  {}

  /** There is a turn left for a node in progress. */
  lemma SpendOne(g: Graph, states: seq<State>, stack: seq<Frame>, spent: seq<nat>, turns: nat, v: nat)
    requires Spent(g, states, stack, spent, turns) && v < |states| && states[v] == InProgress
    ensures Sum(spent[v := spent[v] + 1]) == turns + 1 && turns < |g.dependsOn| + Sum(EntryCounts(g))
  {
    hide Sum;
    SumBump(spent, v);
    SumBound(spent[v := spent[v] + 1], EntryCounts(g));
  }

  /** The turn passes an entry of the top frame. */
  lemma SpendPass(g: Graph, states: seq<State>, stack: seq<Frame>, spent: seq<nat>, turns: nat, v: nat)
    requires Spent(g, states, stack, spent, turns) && stack != [] && v == stack[|stack| - 1].node
    requires v < |states| && states[v] == InProgress
    requires forall i :: 0 <= i < |stack| - 1 ==> stack[i].node != v
    requires stack[|stack| - 1].cursor < |g.dependsOn[v]| && Sum(spent[v := spent[v] + 1]) == turns + 1
    ensures Spent(g, states, Advance(stack), spent[v := spent[v] + 1], turns + 1)
  {
    hide Sum;
  }

  /** The turn finishes the top frame's node. */
  lemma SpendFinish(g: Graph, states: seq<State>, stack: seq<Frame>, spent: seq<nat>, turns: nat, v: nat)
    requires Spent(g, states, stack, spent, turns) && stack != [] && v == stack[|stack| - 1].node
    requires v < |states| && states[v] == InProgress
    requires forall i :: 0 <= i < |stack| - 1 ==> stack[i].node != v
    requires Sum(spent[v := spent[v] + 1]) == turns + 1
    ensures Spent(g, states[v := Done], stack[..|stack| - 1], spent[v := spent[v] + 1], turns + 1)
  {
    hide Sum;
  }

  /** A turn spent on the top frame: it passes an entry, or its node is finished. */
  lemma Spend(g: Graph, states: seq<State>, stack: seq<Frame>, spent: seq<nat>, turns: nat)
    requires Spent(g, states, stack, spent, turns) && stack != []
    requires forall i, j :: 0 <= i < j < |stack| ==> stack[i].node != stack[j].node
    requires forall i :: 0 <= i < |stack| ==> stack[i].node < |states| && states[stack[i].node] == InProgress
    ensures |states| == |spent| == |g.dependsOn|
    ensures var top := stack[|stack| - 1];
            var spent' := spent[top.node := spent[top.node] + 1];
            && turns < |g.dependsOn| + Sum(EntryCounts(g))
            && (top.cursor < |g.dependsOn[top.node]| ==> Spent(g, states, Advance(stack), spent', turns + 1))
            && Spent(g, states[top.node := Done], stack[..|stack| - 1], spent', turns + 1)
  {
    hide Spent, Sum, Advance, EntryCounts;
    SpentSizes(g, states, stack, spent, turns);
    var top := stack[|stack| - 1];
    SpendOne(g, states, stack, spent, turns, top.node);
    SpendFinish(g, states, stack, spent, turns, top.node);
    if top.cursor < |g.dependsOn[top.node]| {
      SpendPass(g, states, stack, spent, turns, top.node);
    }
  }

  lemma Initially(g: Graph, starts: seq<nat>, states: seq<State>, spent: seq<nat>)
    requires |states| == |spent| == |g.dependsOn|
    requires (forall v :: 0 <= v < |states| ==> states[v] == Unvisited)
             && (forall v :: 0 <= v < |spent| ==> spent[v] == 0)
    ensures Inv(g, starts, states, [], []) && Spent(g, states, [], spent, 0)
  {
    SumZero(spent);
  }

  /** The inner loop: everything reachable from an unvisited start, unless a cycle turns up. */
  method Explore(g: Graph, ghost starts: seq<nat>, start: nat, states: array<State>, ghost order0: seq<nat>,
                 ghost spent0: seq<nat>, ghost turns0: nat)
    returns (cyclic: bool, ghost order: seq<nat>, ghost spent: seq<nat>, ghost turns: nat)
    requires Valid(g) && Inv(g, starts, states[..], [], order0) && Spent(g, states[..], [], spent0, turns0)
    requires start in starts && start < states.Length && states[start] == Unvisited
    modifies states
    ensures turns <= |g.dependsOn| + Sum(EntryCounts(g))
    ensures cyclic ==> HasReachableCycle(g, starts)
    ensures !cyclic ==> Inv(g, starts, states[..], [], order) && Spent(g, states[..], [], spent, turns)
    ensures !cyclic ==> order0 <= order && start in order
  {
    order, spent, turns := order0, spent0, turns0;
    hide Inv, Spent, Valid, HasReachableCycle, Sum, EntryCounts, OnStack;
    SpentBound(g, states[..], [], spent, turns);
    Enter(g, starts, states[..], order, start);
    SpentPush(g, states[..], [], spent, turns, start);
    states[start] := InProgress;
    var stack := [Frame(start, 0)];
    assert stack == [] + [Frame(start, 0)];
    while stack != []
      invariant Inv(g, starts, states[..], stack, order)
      invariant Spent(g, states[..], stack, spent, turns)
      invariant turns <= |g.dependsOn| + Sum(EntryCounts(g))
      invariant order0 <= order
      invariant if stack == [] then start in order else stack[0].node == start
      decreases |g.dependsOn| + Sum(EntryCounts(g)) - turns
    {
      var Frame(index, cursor) := stack[|stack| - 1];
      StackFacts(g, starts, states[..], stack, order);
      Spend(g, states[..], stack, spent, turns);
      spent, turns := spent[index := spent[index] + 1], turns + 1;
      var dependencies := g.dependsOn[index];
      if cursor >= |dependencies| {
        assert stack == stack[..|stack| - 1] + [stack[|stack| - 1]];
        Finish(g, starts, states[..], stack[..|stack| - 1], stack[|stack| - 1], order);
        states[index] := Done;
        stack, order := stack[..|stack| - 1], order + [index];
        continue;
      }
      ghost var before := stack;
      stack := Advance(stack);
      var target := g.resolve(dependencies[cursor]);
      if target.None? {
        Skip(g, starts, states[..], before, order);
        continue;
      }
      match states[target.value] {
        case InProgress =>
          BackEdge(g, starts, states[..], before, order, target.value);
          return true, order, spent, turns;
        case Done =>
          Skip(g, starts, states[..], before, order);
        case Unvisited =>
          Descend(g, starts, states[..], before, order, target.value);
          SpentPush(g, states[..], stack, spent, turns, target.value);
          states[target.value] := InProgress;
          stack := stack + [Frame(target.value, 0)];
      }
    }
    return false, order, spent, turns;
  }

  /**
   * Exact, and linear: the answer is yes precisely when a cycle is reachable; on a no, the
   * order in which nodes were finished is topological; one turn per node and per entry at most.
   */
  method GraphHasCycle(g: Graph, starts: seq<nat>) returns (cyclic: bool, ghost order: seq<nat>, ghost turns: nat)
    requires Valid(g) && forall s :: s in starts ==> s < |g.dependsOn|
    ensures cyclic <==> HasReachableCycle(g, starts)
    ensures !cyclic ==> TopologicalOrder(g, starts, order)
    ensures turns <= |g.dependsOn| + Sum(EntryCounts(g))
  {
    hide Inv, Spent, Valid, HasReachableCycle, TopologicalOrder;
    var nodeCount := |g.dependsOn|;
    var states := new State[nodeCount](_ => Unvisited);
    order, turns := [], 0;
    ghost var spent := seq(nodeCount, _ => 0);
    Initially(g, starts, states[..], spent);
    for n := 0 to |starts|
      invariant Inv(g, starts, states[..], [], order)
      invariant Spent(g, states[..], [], spent, turns)
      invariant forall m :: 0 <= m < n ==> starts[m] in order
    {
      StackFacts(g, starts, states[..], [], order);
      SpentBound(g, states[..], [], spent, turns);
      var start := starts[n];
      assert start in starts;
      match states[start] {
        case InProgress => return true, order, turns;
        case Done => continue;
        case Unvisited =>
      }
      cyclic, order, spent, turns := Explore(g, starts, start, states, order, spent, turns);
      if cyclic {
        return true, order, turns;
      }
    }
    FinishedIsTopological(g, starts, states[..], order);
    OrderMeansAcyclic(g, starts, order);
    SpentBound(g, states[..], [], spent, turns);
    return false, order, turns;
  }
}
