/** Grouping of an OpenAPI document's operations into CRUD resources. */
module ResourceGrouping {
  import opened Options
  import opened Strings
  import opened Utf8

  // ----- Input -----

  /** The operations of a path item, by request method. */
  datatype Methods<O> = Methods(get: Option<O>, post: Option<O>, put: Option<O>, patch: Option<O>, delete: Option<O>)

  /** A path item, or a reference to one (`None`), which is skipped. */
  datatype PathItem<O> = PathItem(path: string, item: Option<Methods<O>>)

  datatype PathOp<O> = PathOp(path: string, verb: string, operation: O)

  function OpFor<O>(path: string, verb: string, operation: Option<O>): seq<PathOp<O>> {
    match operation case Some(o) => [PathOp(path, verb, o)] case None => []
  }

  function OpsOf<O>(item: PathItem<O>): seq<PathOp<O>> {
    match item.item
    case None => []
    case Some(m) =>
      OpFor(item.path, "GET", m.get) + OpFor(item.path, "POST", m.post) + OpFor(item.path, "PUT", m.put)
      + OpFor(item.path, "PATCH", m.patch) + OpFor(item.path, "DELETE", m.delete)
  }

  function Collect<O>(items: seq<PathItem<O>>): seq<PathOp<O>> {
    if items == [] then [] else Collect(items[..|items| - 1]) + OpsOf(items[|items| - 1])
  }

  /** The five methods collected, in this order within one path item. */
  const VERBS := ["GET", "POST", "PUT", "PATCH", "DELETE"]

  /** `group_resources`, its first loop. */
  method CollectOperations<O>(items: seq<PathItem<O>>) returns (ops: seq<PathOp<O>>)
    ensures ops == Collect(items)
  {
    ops := [];
    hide Collect, OpsOf, MethodOps;
    NothingCollected(items);
    for n := 0 to |items|
      invariant ops == Collect(items[..n])
    {
      CollectNext(items, n);
      if items[n].item.None? {
        continue;
      }
      var item := items[n].item.value;
      var methods := [item.get, item.post, item.put, item.patch, item.delete];
      ghost var before := ops;
      AllMethods(items[n], methods);
      for k := 0 to |methods|
        invariant ops == before + MethodOps(items[n].path, methods, k)
      {
        MethodStep(before, items[n].path, methods, k);
        if methods[k].Some? {
          ops := ops + [PathOp(items[n].path, VERBS[k], methods[k].value)];
        }
      }
    }
  }

  ghost function MethodOps<O>(path: string, methods: seq<Option<O>>, n: nat): seq<PathOp<O>>
    requires n <= |methods| == |VERBS|
  {
    if n == 0 then [] else MethodOps(path, methods, n - 1) + OpFor(path, VERBS[n - 1], methods[n - 1])
  }

  lemma NothingCollected<O>(items: seq<PathItem<O>>)
    ensures Collect(items[..0]) == [] && Collect(items[..|items|]) == Collect(items)
  {
    assert items[..|items|] == items;
  }

  lemma MethodStep<O>(before: seq<PathOp<O>>, path: string, methods: seq<Option<O>>, k: nat)
    requires k < |methods| == |VERBS|
    ensures before + MethodOps(path, methods, k + 1) ==
            if methods[k].Some? then before + MethodOps(path, methods, k) + [PathOp(path, VERBS[k], methods[k].value)]
            else before + MethodOps(path, methods, k)
  {}

  lemma AllMethods<O>(item: PathItem<O>, methods: seq<Option<O>>)
    requires item.item.Some?
    requires var m := item.item.value; methods == [m.get, m.post, m.put, m.patch, m.delete]
    ensures OpsOf(item) == MethodOps(item.path, methods, 5) && MethodOps(item.path, methods, 0) == []
  {
    hide OpFor;
    assert MethodOps(item.path, methods, 1) == OpFor(item.path, "GET", methods[0]);
    assert MethodOps(item.path, methods, 2) == MethodOps(item.path, methods, 1) + OpFor(item.path, "POST", methods[1]);
    assert MethodOps(item.path, methods, 3) == MethodOps(item.path, methods, 2) + OpFor(item.path, "PUT", methods[2]);
    assert MethodOps(item.path, methods, 4) == MethodOps(item.path, methods, 3) + OpFor(item.path, "PATCH", methods[3]);
  }

  lemma CollectNext<O>(items: seq<PathItem<O>>, n: nat)
    requires n < |items|
    ensures Collect(items[..n + 1]) == Collect(items[..n]) + OpsOf(items[n])
    ensures items[n].item.None? ==> Collect(items[..n + 1]) == Collect(items[..n])
  {
    assert items[..n + 1][..n] == items[..n];
  }

  // ----- Paths -----

  predicate IsParam(segment: string) {
    |segment| >= 2 && segment[0] == '{' && segment[|segment| - 1] == '}'
  }

  function CountParams(segments: seq<string>): nat {
    if segments == [] then 0 else (if IsParam(segments[0]) then 1 else 0) + CountParams(segments[1..])
  }

  function CountPathParams(path: string): nat {
    CountParams(Split(path, '/'))
  }

  function LastSegment(path: string): string {
    var segments := Split(path, '/');
    segments[|segments| - 1]
  }

  function TrailingParam(path: string): Option<string> {
    var last := LastSegment(path);
    if IsParam(last) then Some(last[1..|last| - 1]) else None
  }

  /** Index of the last `/`. */
  function LastSlash(path: string): (r: Option<nat>)
    ensures r.Some? ==> r.value < |path|
  {
    if path == "" then None
    else if path[|path| - 1] == '/' then Some(|path| - 1)
    else LastSlash(path[..|path| - 1])
  }

  /** `strip_trailing_param`, with its caller's default. */
  function StripTrailingParam(path: string): string {
    match LastSlash(path)
    case None => ""
    case Some(i) => if i == 0 then "/" else path[..i]
  }

  // ----- Buckets -----

  datatype Bucket = Skipped | OfCollection(key: string) | OfItem(key: string)

  function BucketOf(path: string): Bucket {
    if CountPathParams(path) >= 2 then Skipped
    else if TrailingParam(path).Some? then OfItem(StripTrailingParam(path))
    else OfCollection(path)
  }

  /** The operations of one bucket, in document order. */
  function In<O>(ops: seq<PathOp<O>>, bucket: Bucket): seq<PathOp<O>> {
    if ops == [] then []
    else
      var last := ops[|ops| - 1];
      In(ops[..|ops| - 1], bucket) + (if BucketOf(last.path) == bucket then [last] else [])
  }

  lemma InAppend<O>(ops: seq<PathOp<O>>, op: PathOp<O>, bucket: Bucket)
    ensures In(ops + [op], bucket) == In(ops, bucket) + (if BucketOf(op.path) == bucket then [op] else [])
  {
    assert (ops + [op])[..|ops|] == ops;
  }

  /** Every operation with at most one parameter is in exactly one bucket; the others are in none. */
  lemma {:induction false} InExact<O>(ops: seq<PathOp<O>>, bucket: Bucket, op: PathOp<O>)
    ensures op in In(ops, bucket) <==> op in ops && BucketOf(op.path) == bucket
  {
    if ops != [] {
      InExact(ops[..|ops| - 1], bucket, op);
      assert ops == ops[..|ops| - 1] + [ops[|ops| - 1]];
    }
  }

  lemma InLast<O>(ops: seq<PathOp<O>>, bucket: Bucket)
    requires ops != []
    ensures var n := |ops| - 1;
            In(ops, bucket) ==
            if BucketOf(ops[n].path) == bucket then In(ops[..n], bucket) + [ops[n]] else In(ops[..n], bucket)
  {}

  /** `at` are the positions in `ops` of the operations of a bucket, in increasing order. */
  ghost predicate ArePositions<O>(ops: seq<PathOp<O>>, bucket: Bucket, at: seq<nat>) {
    && (forall k {:trigger k in at} :: k in at <==> 0 <= k < |ops| && BucketOf(ops[k].path) == bucket)
    && (forall i, j :: 0 <= i < j < |at| ==> at[i] < at[j])
  }

  /** `list` is what `ops` holds at the positions `at`. */
  ghost predicate Selects<O>(ops: seq<PathOp<O>>, at: seq<nat>, list: seq<PathOp<O>>) {
    |list| == |at| && forall i :: 0 <= i < |at| ==> at[i] < |ops| && ops[at[i]] == list[i]
  }

  /** A bucket lists its operations in document order, each as often as the document does. */
  lemma {:induction false} InPositions<O>(ops: seq<PathOp<O>>, bucket: Bucket) returns (at: seq<nat>)
    ensures ArePositions(ops, bucket, at) && Selects(ops, at, In(ops, bucket))
  {
    if ops == [] {
      at := [];
    } else {
      hide BucketOf, In, ArePositions, Selects;
      var n := |ops| - 1;
      InLast(ops, bucket);
      at := InPositions(ops[..n], bucket);
      OneMorePosition(ops, bucket, at);
      OneMoreSelected(ops, at, In(ops[..n], bucket));
      if BucketOf(ops[n].path) == bucket {
        at := at + [n];
      }
    }
  }

  lemma OneMoreSelected<O>(ops: seq<PathOp<O>>, at: seq<nat>, list: seq<PathOp<O>>)
    requires ops != [] && Selects(ops[..|ops| - 1], at, list)
    ensures var n := |ops| - 1; Selects(ops, at, list) && Selects(ops, at + [n], list + [ops[n]])
  {}

  lemma OneMorePosition<O>(ops: seq<PathOp<O>>, bucket: Bucket, at: seq<nat>)
    requires ops != [] && ArePositions(ops[..|ops| - 1], bucket, at)
    ensures var n := |ops| - 1; ArePositions(ops, bucket, if BucketOf(ops[n].path) == bucket then at + [n] else at)
  {
    hide BucketOf;
    forall i | 0 <= i < |at| ensures at[i] < |ops| - 1 {
      assert at[i] in at;
    }
  }

  // ----- Groups -----

  datatype Group<O> = Group(
    name: string,
    collectionPath: string,
    itemPath: Option<string>,
    idParam: Option<string>,
    create: Option<PathOp<O>>,
    list: Option<PathOp<O>>,
    read: Option<PathOp<O>>,
    update: Option<PathOp<O>>,
    delete: Option<PathOp<O>>)

  function One<T>(o: Option<T>): nat {
    if o.Some? then 1 else 0
  }

  function StepCount<O>(g: Group<O>): nat {
    One(g.create) + One(g.list) + One(g.read) + One(g.update) + One(g.delete)
  }

  /** The last nonempty segment that does not start a parameter, or `resource`. */
  function NameFrom(segments: seq<string>): string {
    if segments == [] then "resource"
    else
      var last := segments[|segments| - 1];
      if last != "" && last[0] != '{' then last else NameFrom(segments[..|segments| - 1])
  }

  function ResourceName(path: string): string {
    NameFrom(Split(path, '/'))
  }

  /** Neither empty nor the start of a parameter. */
  predicate IsNaming(segment: string) {
    segment != "" && segment[0] != '{'
  }

  /** The last naming segment. */
  ghost predicate NamesAt(segments: seq<string>, k: nat) {
    k < |segments| && IsNaming(segments[k]) && forall j :: k < j < |segments| ==> !IsNaming(segments[j])
  }

  /** A resource is called after the last naming segment of its path, whatever stands before or behind it. */
  lemma ResourceNameExact(path: string)
    ensures forall k: nat :: NamesAt(Split(path, '/'), k) ==> ResourceName(path) == Split(path, '/')[k]
    ensures (forall k: nat :: !NamesAt(Split(path, '/'), k)) ==> ResourceName(path) == "resource"
    ensures ResourceName(path) != ""
  {
    NameFromExact(Split(path, '/'));
  }

  lemma {:induction false} NameFromExact(segments: seq<string>)
    ensures forall k: nat :: NamesAt(segments, k) ==> NameFrom(segments) == segments[k]
    ensures (forall k: nat :: !NamesAt(segments, k)) ==> NameFrom(segments) == "resource"
    ensures NameFrom(segments) != ""
  {
    if segments != [] {
      var n := |segments| - 1;
      if IsNaming(segments[n]) {
        assert NamesAt(segments, n);
      } else {
        NameFromExact(segments[..n]);
        forall k: nat ensures NamesAt(segments, k) <==> NamesAt(segments[..n], k) {}
      }
    }
  }

  function LastWith<O>(ops: seq<PathOp<O>>, verb: string): Option<PathOp<O>> {
    if ops == [] then None
    else
      var last := ops[|ops| - 1];
      if last.verb == verb then Some(last) else LastWith(ops[..|ops| - 1], verb)
  }

  function FirstWith<O>(ops: seq<PathOp<O>>, verb: string): Option<PathOp<O>> {
    if ops == [] then None
    else
      var before := FirstWith(ops[..|ops| - 1], verb);
      if before.Some? then before else if ops[|ops| - 1].verb == verb then Some(ops[|ops| - 1]) else None
  }

  /** The last PUT if there is one, else the first PATCH. */
  function UpdateOf<O>(ops: seq<PathOp<O>>): Option<PathOp<O>> {
    if LastWith(ops, "PUT").Some? then LastWith(ops, "PUT") else FirstWith(ops, "PATCH")
  }

  function GroupOf<O>(path: string, collection: seq<PathOp<O>>, items: seq<PathOp<O>>): Group<O> {
    Group(ResourceName(path), path,
          if items == [] then None else Some(items[0].path),
          if items == [] then None else TrailingParam(items[0].path),
          LastWith(collection, "POST"), LastWith(collection, "GET"),
          LastWith(items, "GET"), UpdateOf(items), LastWith(items, "DELETE"))
  }

  predicate Without<O>(ops: seq<PathOp<O>>, verb: string) {
    forall i :: 0 <= i < |ops| ==> ops[i].verb != verb
  }

  ghost predicate SitsAt<O>(ops: seq<PathOp<O>>, verb: string, op: PathOp<O>, i: nat) {
    i < |ops| && ops[i] == op && op.verb == verb
  }

  lemma {:induction false} LastWithIs<O>(ops: seq<PathOp<O>>, verb: string)
    ensures LastWith(ops, verb).None? <==> Without(ops, verb)
    ensures LastWith(ops, verb).Some? ==>
              exists i: nat :: SitsAt(ops, verb, LastWith(ops, verb).value, i) && Without(ops[i + 1..], verb)
  {
    if ops != [] {
      var last, before := ops[|ops| - 1], ops[..|ops| - 1];
      if last.verb == verb {
        assert SitsAt(ops, verb, last, |ops| - 1) && Without(ops[|ops| - 1 + 1..], verb);
      } else {
        LastWithIs(before, verb);
        assert ops == before + [last];
        if LastWith(before, verb).Some? {
          var i: nat :| SitsAt(before, verb, LastWith(before, verb).value, i) && Without(before[i + 1..], verb);
          assert ops[i + 1..] == before[i + 1..] + [last];
          assert SitsAt(ops, verb, LastWith(ops, verb).value, i);
        }
      }
    }
  }

  lemma {:induction false} FirstWithIs<O>(ops: seq<PathOp<O>>, verb: string)
    ensures FirstWith(ops, verb).None? <==> Without(ops, verb)
    ensures FirstWith(ops, verb).Some? ==>
              exists i: nat :: SitsAt(ops, verb, FirstWith(ops, verb).value, i) && Without(ops[..i], verb)
  {
    if ops != [] {
      var last, before := ops[|ops| - 1], ops[..|ops| - 1];
      FirstWithIs(before, verb);
      assert ops == before + [last];
      if FirstWith(before, verb).Some? {
        var i: nat :| SitsAt(before, verb, FirstWith(before, verb).value, i) && Without(before[..i], verb);
        assert ops[..i] == before[..i];
        assert SitsAt(ops, verb, FirstWith(ops, verb).value, i);
      } else if last.verb == verb {
        assert SitsAt(ops, verb, last, |ops| - 1);
      }
    }
  }

  /** A group's update is the last PUT if there is one, else the first PATCH. */
  lemma UpdateExact<O>(ops: seq<PathOp<O>>)
    ensures UpdateOf(ops).None? <==> Without(ops, "PUT") && Without(ops, "PATCH")
    ensures !Without(ops, "PUT") ==>
              exists i: nat :: SitsAt(ops, "PUT", UpdateOf(ops).value, i) && Without(ops[i + 1..], "PUT")
    ensures Without(ops, "PUT") && !Without(ops, "PATCH") ==>
              exists i: nat :: SitsAt(ops, "PATCH", UpdateOf(ops).value, i) && Without(ops[..i], "PATCH")
  {
    hide LastWith, FirstWith, Without, SitsAt;
    LastWithIs(ops, "PUT");
    FirstWithIs(ops, "PATCH");
  }

  /** The loops over one collection's operations. */
  method BuildGroup<O>(path: string, collection: seq<PathOp<O>>, items: seq<PathOp<O>>) returns (group: Group<O>)
    ensures group == GroupOf(path, collection, items)
  {
    group := Group(ResourceName(path), path, None, None, None, None, None, None, None);
    for n := 0 to |collection|
      invariant group == GroupOf(path, collection[..n], [])
    {
      var op := collection[n];
      assert collection[..n + 1][..n] == collection[..n];
      if op.verb == "POST" {
        group := group.(create := Some(op));
      } else if op.verb == "GET" {
        group := group.(list := Some(op));
      }
    }
    assert collection[..|collection|] == collection;
    for n := 0 to |items|
      invariant group == GroupOf(path, collection, items[..n])
    {
      var op := items[n];
      assert items[..n + 1][..n] == items[..n];
      if group.itemPath.None? {
        group := group.(itemPath := Some(op.path), idParam := TrailingParam(op.path));
      }
      if op.verb == "GET" {
        group := group.(read := Some(op));
      } else if (op.verb == "PUT" || op.verb == "PATCH") && (group.update.None? || op.verb == "PUT") {
        group := group.(update := Some(op));
      } else if op.verb == "DELETE" {
        group := group.(delete := Some(op));
      }
    }
    assert items[..|items|] == items;
  }

  // ----- The order of paths -----

  /** Byte order, as strings compare. */
  predicate BytesLess(a: Bytes, b: Bytes) {
    b != [] && (a == [] || a[0] < b[0] || (a[0] == b[0] && BytesLess(a[1..], b[1..])))
  }

  predicate PathLess(a: string, b: string) {
    BytesLess(Encode(a), Encode(b))
  }

  lemma {:induction false} BytesTotal(a: Bytes, b: Bytes)
    ensures a != b ==> BytesLess(a, b) || BytesLess(b, a)
    ensures BytesLess(a, b) ==> !BytesLess(b, a) && a != b
  {
    if a != [] && b != [] {
      BytesTotal(a[1..], b[1..]);
      assert a == [a[0]] + a[1..] && b == [b[0]] + b[1..];
    }
  }

  lemma {:induction false} BytesTransitive(a: Bytes, b: Bytes, c: Bytes)
    requires BytesLess(a, b) && BytesLess(b, c)
    ensures BytesLess(a, c)
  {
    if a != [] && a[0] == b[0] == c[0] {
      BytesTransitive(a[1..], b[1..], c[1..]);
    }
  }

  lemma PathTotal(a: string, b: string)
    ensures a != b ==> PathLess(a, b) || PathLess(b, a)
    ensures PathLess(a, b) ==> !PathLess(b, a) && a != b
  {
    BytesTotal(Encode(a), Encode(b));
    if Encode(a) == Encode(b) {
      EncodeInjective(a, b);
    }
  }

  /** At the first difference `a` ends, or has the character of the smaller code. */
  ghost predicate TextLess(a: string, b: string) {
    exists k :: 0 <= k <= |a| && k < |b| && a[..k] == b[..k] && (k < |a| ==> a[k] < b[k])
  }

  lemma {:induction false} SameStart(head: Bytes, a: Bytes, b: Bytes)
    ensures BytesLess(head + a, head + b) <==> BytesLess(a, b)
  {
    if head == [] {
      assert head + a == a && head + b == b;
    } else {
      assert (head + a)[1..] == head[1..] + a && (head + b)[1..] == head[1..] + b;
      SameStart(head[1..], a, b);
    }
  }

  lemma SmallerByte(a: Bytes, b: Bytes, k: nat)
    requires k < |a| && k < |b| && a[..k] == b[..k] && a[k] < b[k]
    ensures BytesLess(a, b)
  {
    SameStart(a[..k], a[k..], b[k..]);
    assert a == a[..k] + a[k..] && b == a[..k] + b[k..];
  }

  /** The last base-64 digit of two numbers decides only where the others agree. */
  lemma Digit64(u: nat, v: nat)
    requires u < v
    ensures u / 0x40 < v / 0x40 || (u / 0x40 == v / 0x40 && u % 0x40 < v % 0x40)
  {}

  lemma Digits64(u: nat)
    ensures u / 0x40 / 0x40 == u / 0x1000 && u / 0x1000 / 0x40 == u / 0x40000
  {}

  lemma DifferenceOf3(c: char, d: char) returns (k: nat)
    requires 0x800 <= c as int < d as int < 0x10000
    ensures k < |EncodeChar(c)| && k < |EncodeChar(d)| && EncodeChar(c)[..k] == EncodeChar(d)[..k]
    ensures EncodeChar(c)[k] < EncodeChar(d)[k]
  {
    var u, v := c as int, d as int;
    Digits64(u);
    Digits64(v);
    Digit64(u, v);
    if u / 0x40 == v / 0x40 {
      k := 2;
    } else {
      Digit64(u / 0x40, v / 0x40);
      k := if u / 0x1000 < v / 0x1000 then 0 else 1;
    }
  }

  lemma DifferenceOf4(c: char, d: char) returns (k: nat)
    requires 0x10000 <= c as int < d as int
    ensures k < |EncodeChar(c)| && k < |EncodeChar(d)| && EncodeChar(c)[..k] == EncodeChar(d)[..k]
    ensures EncodeChar(c)[k] < EncodeChar(d)[k]
  {
    var x, y := EncodeChar(c), EncodeChar(d);
    FourDigits(c as int, d as int);
    assert |x| == |y| == 4;
    k := if x[0] < y[0] then 0 else if x[1] < y[1] then 1 else if x[2] < y[2] then 2 else 3;
  }

  /** At the first of the four digits that differs, the smaller number has the smaller digit. */
  lemma FourDigits(u: nat, v: nat)
    requires u < v
    ensures u / 0x40000 <= v / 0x40000
    ensures u / 0x40000 == v / 0x40000 ==> u / 0x1000 % 0x40 <= v / 0x1000 % 0x40
    ensures u / 0x1000 == v / 0x1000 ==> u / 0x40 % 0x40 <= v / 0x40 % 0x40
    ensures u / 0x40 == v / 0x40 ==> u % 0x40 < v % 0x40
    ensures u / 0x40000 == v / 0x40000 && u / 0x1000 % 0x40 == v / 0x1000 % 0x40 ==> u / 0x1000 == v / 0x1000
    ensures u / 0x1000 == v / 0x1000 && u / 0x40 % 0x40 == v / 0x40 % 0x40 ==> u / 0x40 == v / 0x40
  {
    Digits64(u);
    Digits64(v);
  }

  /** UTF-8 keeps the order of characters. */
  lemma CharOrder(c: char, d: char, a: Bytes, b: Bytes)
    requires c < d
    ensures BytesLess(EncodeChar(c) + a, EncodeChar(d) + b)
  {
    hide BytesLess;
    var u, v := c as int, d as int;
    var k: nat := 0;
    if 0x80 <= u && v < 0x800 {
      Digit64(u, v);
      k := if u / 0x40 < v / 0x40 then 0 else 1;
    } else if 0x800 <= u && v < 0x10000 {
      k := DifferenceOf3(c, d);
    } else if 0x10000 <= u {
      k := DifferenceOf4(c, d);
    }
    KeepDifference(EncodeChar(c), EncodeChar(d), k, a, b);
  }

  lemma KeepDifference(x: Bytes, y: Bytes, k: nat, a: Bytes, b: Bytes)
    requires k < |x| && k < |y| && x[..k] == y[..k] && x[k] < y[k]
    ensures BytesLess(x + a, y + b)
  {
    assert (x + a)[..k] == x[..k] && (y + b)[..k] == y[..k];
    SmallerByte(x + a, y + b, k);
  }

  lemma TextLessFirst(a: string, b: string)
    requires a != "" && b != ""
    ensures TextLess(a, b) <==> a[0] < b[0] || (a[0] == b[0] && TextLess(a[1..], b[1..]))
  {
    if a[0] == b[0] && TextLess(a[1..], b[1..]) {
      var k :| 0 <= k <= |a[1..]| && k < |b[1..]| && a[1..][..k] == b[1..][..k]
               && (k < |a[1..]| ==> a[1..][k] < b[1..][k]);
      assert a[..k + 1] == [a[0]] + a[1..][..k] && b[..k + 1] == [b[0]] + b[1..][..k];
    }
    if a[0] < b[0] {
      assert a[..0] == b[..0];
    }
    if TextLess(a, b) {
      var k :| 0 <= k <= |a| && k < |b| && a[..k] == b[..k] && (k < |a| ==> a[k] < b[k]);
      if k > 0 {
        assert a[0] == a[..k][0] == b[..k][0] == b[0];
        assert a[1..][..k - 1] == a[..k][1..] && b[1..][..k - 1] == b[..k][1..];
      }
    }
  }

  /** Paths compare as their bytes do, and that is as their characters do. */
  lemma {:induction false} PathOrder(a: string, b: string)
    ensures PathLess(a, b) <==> TextLess(a, b)
    decreases |a|
  {
    if a == "" || b == "" {
      assert a == "" && b != "" ==> a[..0] == b[..0];
    } else {
      hide EncodeChar, TextLess, BytesLess;
      TextLessFirst(a, b);
      var x, y := Encode(a[1..]), Encode(b[1..]);
      if a[0] == b[0] {
        SameStart(EncodeChar(a[0]), x, y);
        PathOrder(a[1..], b[1..]);
      } else if a[0] < b[0] {
        CharOrder(a[0], b[0], x, y);
      } else {
        CharOrder(b[0], a[0], y, x);
        BytesTotal(Encode(b), Encode(a));
      }
    }
  }

  ghost predicate Sorted<O>(groups: seq<Group<O>>) {
    forall i, j :: 0 <= i < j < |groups| ==> PathLess(groups[i].collectionPath, groups[j].collectionPath)
  }

  function Insert<O>(group: Group<O>, sorted: seq<Group<O>>): seq<Group<O>> {
    if sorted == [] then [group]
    else if PathLess(group.collectionPath, sorted[0].collectionPath) then [group] + sorted
    else [sorted[0]] + Insert(group, sorted[1..])
  }

  /** `sort_by` on the collection path. */
  function SortByPath<O>(groups: seq<Group<O>>): seq<Group<O>> {
    if groups == [] then [] else Insert(groups[|groups| - 1], SortByPath(groups[..|groups| - 1]))
  }

  lemma {:induction false} InsertPermutes<O>(group: Group<O>, sorted: seq<Group<O>>)
    ensures multiset(Insert(group, sorted)) == multiset(sorted) + multiset{group}
  {
    hide PathLess;
    if sorted != [] {
      var head, rest := sorted[0], Insert(group, sorted[1..]);
      InsertPermutes(group, sorted[1..]);
      assert sorted == [head] + sorted[1..];
      assert multiset([head] + rest) == multiset{head} + multiset(rest);
      assert multiset([group] + sorted) == multiset{group} + multiset(sorted);
    }
  }

  lemma {:induction false} InsertSorts<O>(group: Group<O>, sorted: seq<Group<O>>)
    requires Sorted(sorted) && Fresh(sorted, group.collectionPath)
    ensures Sorted(Insert(group, sorted))
  {
    if sorted != [] {
      hide PathLess;
      var head, tail := sorted[0], sorted[1..];
      PathTotal(group.collectionPath, head.collectionPath);
      if PathLess(group.collectionPath, head.collectionPath) {
        InsertFirst(group, sorted);
      } else {
        InsertSorts(group, tail);
        InsertPermutes(group, tail);
        InsertLater(group, head, tail, Insert(group, tail));
      }
    }
  }

  lemma InsertFirst<O>(group: Group<O>, sorted: seq<Group<O>>)
    requires Sorted(sorted) && sorted != [] && PathLess(group.collectionPath, sorted[0].collectionPath)
    ensures Sorted([group] + sorted)
  {
    forall i | 0 <= i < |sorted| ensures PathLess(group.collectionPath, sorted[i].collectionPath) {
      if i > 0 {
        BytesTransitive(Encode(group.collectionPath), Encode(sorted[0].collectionPath),
                        Encode(sorted[i].collectionPath));
      }
    }
  }

  lemma InsertLater<O>(group: Group<O>, head: Group<O>, tail: seq<Group<O>>, rest: seq<Group<O>>)
    requires forall j :: 0 <= j < |tail| ==> PathLess(head.collectionPath, tail[j].collectionPath)
    requires PathLess(head.collectionPath, group.collectionPath)
    requires Sorted(rest) && multiset(rest) == multiset(tail) + multiset{group}
    ensures Sorted([head] + rest)
  {
    hide PathLess;
    forall i | 0 <= i < |rest| ensures PathLess(head.collectionPath, rest[i].collectionPath) {
      assert rest[i] in multiset(rest);
      if rest[i] != group {
        assert rest[i] in multiset(tail);
      }
    }
  }

  ghost predicate DistinctPaths<O>(groups: seq<Group<O>>) {
    forall i, j :: 0 <= i < j < |groups| ==> groups[i].collectionPath != groups[j].collectionPath
  }

  /** No group has this path. */
  ghost predicate Fresh<O>(groups: seq<Group<O>>, path: string) {
    forall i :: 0 <= i < |groups| ==> groups[i].collectionPath != path
  }

  lemma FreshPermuted<O>(a: seq<Group<O>>, b: seq<Group<O>>, path: string)
    requires Fresh(a, path) && multiset(a) == multiset(b)
    ensures Fresh(b, path)
  {
    forall i | 0 <= i < |b| ensures b[i].collectionPath != path {
      assert b[i] in multiset(a);
    }
  }

  lemma {:induction false} SortSorts<O>(groups: seq<Group<O>>)
    requires DistinctPaths(groups)
    ensures Sorted(SortByPath(groups)) && multiset(SortByPath(groups)) == multiset(groups)
  {
    if groups != [] {
      var last, before := groups[|groups| - 1], groups[..|groups| - 1];
      assert Fresh(before, last.collectionPath);
      SortSorts(before);
      var sorted := SortByPath(before);
      FreshPermuted(before, sorted, last.collectionPath);
      hide PathLess, Insert;
      InsertSorts(last, sorted);
      InsertPermutes(last, sorted);
      assert groups == before + [last];
    }
  }

  /** Strictly sorted lists with the same elements are the same list. */
  lemma {:induction false} SortedUnique<O>(a: seq<Group<O>>, b: seq<Group<O>>)
    requires Sorted(a) && Sorted(b) && forall g :: g in a <==> g in b
    ensures a == b
    decreases |a|
  {
    EmptyTogether(a, b);
    if a != [] {
      assert a[0] in a && a[0] in b;
      assert b[0] in b && b[0] in a;
      FirstIsLeast(a, b[0]);
      FirstIsLeast(b, a[0]);
      PathTotal(a[0].collectionPath, b[0].collectionPath);
      assert a[0] == b[0];
      TailMembers(a);
      TailMembers(b);
      SortedUnique(a[1..], b[1..]);
      assert a == [a[0]] + a[1..] && b == [b[0]] + b[1..];
    }
  }

  lemma EmptyTogether<O>(a: seq<Group<O>>, b: seq<Group<O>>)
    requires forall g :: g in a <==> g in b
    ensures a == [] <==> b == []
  {
    assert a != [] ==> a[0] in a;
    assert b != [] ==> b[0] in b;
  }

  lemma FirstIsLeast<O>(a: seq<Group<O>>, g: Group<O>)
    requires Sorted(a) && g in a
    ensures g == a[0] || PathLess(a[0].collectionPath, g.collectionPath)
  {
    var i :| 0 <= i < |a| && a[i] == g;
  }

  lemma TailMembers<O>(a: seq<Group<O>>)
    requires Sorted(a) && a != []
    ensures Sorted(a[1..]) && forall g :: g in a[1..] <==> g in a && g != a[0]
  {
    assert a == [a[0]] + a[1..];
    forall g | g in a[1..] ensures g != a[0] {
      var i :| 0 <= i < |a[1..]| && a[1..][i] == g;
      PathTotal(a[0].collectionPath, a[i + 1].collectionPath);
    }
  }

  // ----- `group_resources` -----

  function GroupFor<O>(ops: seq<PathOp<O>>, key: string): Group<O> {
    GroupOf(key, In(ops, OfCollection(key)), In(ops, OfItem(key)))
  }

  /** The groups of at least two steps, one per collection path, in path order. */
  ghost predicate IsGrouping<O(!new)>(ops: seq<PathOp<O>>, groups: seq<Group<O>>) {
    && Sorted(groups)
    && forall g :: g in groups <==> g == GroupFor(ops, g.collectionPath) && StepCount(g) >= 2
  }

  /** There is only one such list, so no enumeration order of the path set can show. */
  lemma GroupingUnique<O(!new)>(ops: seq<PathOp<O>>, a: seq<Group<O>>, b: seq<Group<O>>)
    requires IsGrouping(ops, a) && IsGrouping(ops, b)
    ensures a == b
  {
    hide Sorted;
    assert forall g :: g in a <==> g in b;
    SortedUnique(a, b);
  }

  function BucketFor(key: string, item: bool): Bucket {
    if item then OfItem(key) else OfCollection(key)
  }

  function At<T>(m: map<string, seq<T>>, key: string): seq<T> {
    if key in m then m[key] else []
  }

  function Push<T>(m: map<string, seq<T>>, key: string, value: T): map<string, seq<T>> {
    m[key := At(m, key) + [value]]
  }

  /** A map from key to the operations of that key's bucket. */
  ghost predicate Holds<O>(m: map<string, seq<PathOp<O>>>, ops: seq<PathOp<O>>, item: bool) {
    forall key :: At(m, key) == In(ops, BucketFor(key, item))
  }

  lemma PushHolds<O>(m: map<string, seq<PathOp<O>>>, ops: seq<PathOp<O>>, item: bool, key: string, op: PathOp<O>)
    requires Holds(m, ops, item) && BucketOf(op.path) == BucketFor(key, item)
    ensures Holds(Push(m, key, op), ops + [op], item)
  {
    hide BucketOf, In;
    forall k ensures At(Push(m, key, op), k) == In(ops + [op], BucketFor(k, item)) {
      InAppend(ops, op, BucketFor(k, item));
      assert At(m, k) == In(ops, BucketFor(k, item));
    }
  }

  lemma SkipHolds<O>(m: map<string, seq<PathOp<O>>>, ops: seq<PathOp<O>>, item: bool, op: PathOp<O>)
    requires Holds(m, ops, item) && forall key :: BucketOf(op.path) != BucketFor(key, item)
    ensures Holds(m, ops + [op], item)
  {
    hide BucketOf, In;
    forall k ensures At(m, k) == In(ops + [op], BucketFor(k, item)) {
      InAppend(ops, op, BucketFor(k, item));
      assert At(m, k) == In(ops, BucketFor(k, item));
    }
  }

  lemma SkipStep<O>(collections: map<string, seq<PathOp<O>>>, items: map<string, seq<PathOp<O>>>, ops: seq<PathOp<O>>,
                    op: PathOp<O>)
    requires Holds(collections, ops, false) && Holds(items, ops, true) && CountPathParams(op.path) >= 2
    ensures Holds(collections, ops + [op], false) && Holds(items, ops + [op], true)
  {
    SkipHolds(collections, ops, false, op);
    SkipHolds(items, ops, true, op);
  }

  lemma ItemStep<O>(collections: map<string, seq<PathOp<O>>>, items: map<string, seq<PathOp<O>>>, ops: seq<PathOp<O>>,
                    op: PathOp<O>)
    requires Holds(collections, ops, false) && Holds(items, ops, true)
    requires CountPathParams(op.path) < 2 && TrailingParam(op.path).Some?
    ensures Holds(collections, ops + [op], false)
    ensures Holds(Push(items, StripTrailingParam(op.path), op), ops + [op], true)
  {
    SkipHolds(collections, ops, false, op);
    PushHolds(items, ops, true, StripTrailingParam(op.path), op);
  }

  lemma CollectionStep<O>(collections: map<string, seq<PathOp<O>>>, items: map<string, seq<PathOp<O>>>,
                          ops: seq<PathOp<O>>, op: PathOp<O>)
    requires Holds(collections, ops, false) && Holds(items, ops, true)
    requires CountPathParams(op.path) < 2 && TrailingParam(op.path).None?
    ensures Holds(Push(collections, op.path, op), ops + [op], false)
    ensures Holds(items, ops + [op], true)
  {
    PushHolds(collections, ops, false, op.path, op);
    SkipHolds(items, ops, true, op);
  }

  /** The paths of the operations set aside for having two parameters or more, in order. */
  function SkippedPaths<O>(ops: seq<PathOp<O>>): seq<string> {
    if ops == [] then []
    else
      var last := ops[|ops| - 1];
      SkippedPaths(ops[..|ops| - 1]) + (if CountPathParams(last.path) >= 2 then [last.path] else [])
  }

  lemma SkippedAppend<O>(ops: seq<PathOp<O>>, op: PathOp<O>)
    ensures SkippedPaths(ops + [op]) == SkippedPaths(ops) + (if CountPathParams(op.path) >= 2 then [op.path] else [])
  {
    assert (ops + [op])[..|ops|] == ops;
  }

  /** The paths set aside are those of the operations in no group, one for each. */
  lemma {:induction false} SkippedExact<O>(ops: seq<PathOp<O>>)
    ensures |SkippedPaths(ops)| == |In(ops, Skipped)|
    ensures forall i :: 0 <= i < |SkippedPaths(ops)| ==> SkippedPaths(ops)[i] == In(ops, Skipped)[i].path
  {
    if ops != [] {
      hide CountPathParams, TrailingParam, StripTrailingParam;
      SkippedExact(ops[..|ops| - 1]);
    }
  }

  method FillBuckets<O>(ops: seq<PathOp<O>>)
    returns (collections: map<string, seq<PathOp<O>>>, items: map<string, seq<PathOp<O>>>, warnings: seq<string>)
    ensures Holds(collections, ops, false) && Holds(items, ops, true)
    ensures warnings == SkippedPaths(ops)
  {
    collections, items, warnings := map[], map[], [];
    for n := 0 to |ops|
      invariant Holds(collections, ops[..n], false) && Holds(items, ops[..n], true)
      invariant warnings == SkippedPaths(ops[..n])
    {
      hide Holds, In, Push, SkippedPaths, CountPathParams, TrailingParam, StripTrailingParam;
      var op := ops[n];
      SkippedAppend(ops[..n], op);
      assert ops[..n + 1] == ops[..n] + [op];
      if CountPathParams(op.path) >= 2 {
        SkipStep(collections, items, ops[..n], op);
        warnings := warnings + [op.path];
        continue;
      }
      if TrailingParam(op.path).Some? {
        ItemStep(collections, items, ops[..n], op);
        items := Push(items, StripTrailingParam(op.path), op);
      } else {
        CollectionStep(collections, items, ops[..n], op);
        collections := Push(collections, op.path, op);
      }
    }
    assert ops[..|ops|] == ops;
  }

  /** The groups found once the paths of `visited` are done. */
  ghost predicate Found<O(!new)>(ops: seq<PathOp<O>>, found: seq<Group<O>>, visited: set<string>) {
    && DistinctPaths(found)
    && forall g :: g in found <==>
       g.collectionPath in visited && g == GroupFor(ops, g.collectionPath)
       && StepCount(g) >= 2
  }

  lemma FoundStep<O(!new)>(ops: seq<PathOp<O>>, found: seq<Group<O>>, visited: set<string>, path: string)
    requires Found(ops, found, visited) && path !in visited
    ensures var g := GroupFor(ops, path);
            Found(ops, if StepCount(g) >= 2 then found + [g] else found, visited + {path})
  {
    hide In, StepCount;
    var group := GroupFor(ops, path);
    assert group.collectionPath == path;
    hide GroupFor;
    forall i | 0 <= i < |found| ensures found[i].collectionPath != path {
      assert found[i] in found;
    }
  }

  lemma AllFound<O(!new)>(ops: seq<PathOp<O>>, found: seq<Group<O>>, paths: set<string>)
    requires Found(ops, found, paths)
    requires forall key :: key !in paths ==> In(ops, OfCollection(key)) == [] && In(ops, OfItem(key)) == []
    ensures IsGrouping(ops, SortByPath(found))
  {
    hide In;
    forall g: Group<O> | g == GroupFor(ops, g.collectionPath) && StepCount(g) >= 2 ensures g.collectionPath in paths {
      EmptyGroup(g.collectionPath, In(ops, OfCollection(g.collectionPath)), In(ops, OfItem(g.collectionPath)));
    }
    hide GroupFor, StepCount, SortByPath;
    SortSorts(found);
    forall g ensures g in SortByPath(found) <==> g in found {
      assert g in multiset(SortByPath(found)) <==> g in multiset(found);
    }
  }

  lemma EmptyGroup<O>(path: string, collection: seq<PathOp<O>>, items: seq<PathOp<O>>)
    ensures collection == [] && items == [] ==> StepCount(GroupOf(path, collection, items)) == 0
  {}

  /**
   * The set of paths is walked in an arbitrary order; the list returned is the grouping, and the
   * warnings name every skipped path.
   */
  method GroupResources<O(==,!new)>(doc: seq<PathItem<O>>) returns (groups: seq<Group<O>>, warnings: seq<string>)
    ensures IsGrouping(Collect(doc), groups)
    ensures warnings == SkippedPaths(Collect(doc))
  {
    hide In, GroupOf, Found, SortByPath, IsGrouping, SkippedPaths, Collect, StepCount;
    var ops := CollectOperations(doc);
    var collections, items, skipped := FillBuckets(ops);
    warnings := skipped;
    forall key ensures At(collections, key) == In(ops, OfCollection(key)) && At(items, key) == In(ops, OfItem(key)) {
      assert At(collections, key) == In(ops, BucketFor(key, false)) && At(items, key) == In(ops, BucketFor(key, true));
    }
    hide Holds;
    var paths := collections.Keys + items.Keys;
    var found: seq<Group<O>> := [];
    ghost var visited: set<string> := {};
    NoneFound(ops);
    while paths != {}
      invariant visited !! paths && visited + paths == collections.Keys + items.Keys
      invariant Found(ops, found, visited)
      decreases paths
    {
      var path :| path in paths;
      var group := BuildGroup(path, At(collections, path), At(items, path));
      FoundStep(ops, found, visited, path);
      if StepCount(group) >= 2 {
        found := found + [group];
      }
      paths, visited := paths - {path}, visited + {path};
    }
    AllFound(ops, found, visited);
    groups := SortByPath(found);
  }

  lemma NoneFound<O(!new)>(ops: seq<PathOp<O>>)
    ensures Found(ops, [], {})
  {}

  // ----- What a group holds -----

  /** Item operations and the id parameter come together; collection operations lie on the collection path. */
  lemma GroupWellFormed<O>(ops: seq<PathOp<O>>, key: string)
    ensures var g := GroupFor(ops, key);
            && (g.idParam.Some? <==> g.itemPath.Some?)
            && (g.read.Some? || g.update.Some? || g.delete.Some? ==> g.itemPath.Some?)
            && (g.create.Some? ==> g.create.value.path == key) && (g.list.Some? ==> g.list.value.path == key)
            && (g.itemPath.Some? ==> g.idParam == TrailingParam(g.itemPath.value))
  {
    var collection, items := In(ops, OfCollection(key)), In(ops, OfItem(key));
    forall i | 0 <= i < |collection| ensures collection[i].path == key {
      InExact(ops, OfCollection(key), collection[i]);
    }
    if items != [] {
      InExact(ops, OfItem(key), items[0]);
    }
    hide In, BucketOf, LastWith, FirstWith, TrailingParam;
    LastWithIn(collection, "POST");
    LastWithIn(collection, "GET");
    LastWithIn(items, "GET");
    LastWithIn(items, "PUT");
    LastWithIn(items, "DELETE");
    assert items == [] ==> FirstWith(items, "PATCH") == FirstWith([], "PATCH") == None;
  }

  lemma LastWithIn<O>(ops: seq<PathOp<O>>, verb: string)
    ensures LastWith(ops, verb).Some? ==> LastWith(ops, verb).value in ops && LastWith(ops, verb).value.verb == verb
    ensures ops == [] ==> LastWith(ops, verb).None?
  {
    LastWithIs(ops, verb);
  }

  lemma FirstWithIn<O>(ops: seq<PathOp<O>>, verb: string)
    ensures FirstWith(ops, verb).Some? ==> FirstWith(ops, verb).value in ops && FirstWith(ops, verb).value.verb == verb
  {
    FirstWithIs(ops, verb);
  }
}
