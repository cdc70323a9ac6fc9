/** The operations of an OpenAPI document, by path and method, and the slots of a group they fill. */
module DocumentOperations {
  import opened Options
  import opened Strings
  import opened ResourceGrouping

  // ----- The operations of a document -----

  ghost function MethodOf<O>(m: Methods<O>, verb: string): Option<O> {
    if verb == "GET" then m.get
    else if verb == "POST" then m.post
    else if verb == "PUT" then m.put
    else if verb == "PATCH" then m.patch
    else if verb == "DELETE" then m.delete
    else None
  }

  /** What a path item has under a method; a reference to one has nothing. */
  ghost function OperationAt<O>(item: PathItem<O>, verb: string): Option<O> {
    if item.item.Some? then MethodOf(item.item.value, verb) else None
  }

  ghost predicate Declares<O>(item: PathItem<O>, op: PathOp<O>) {
    item.path == op.path && OperationAt(item, op.verb) == Some(op.operation)
  }

  lemma DeclaredByItem<O>(item: PathItem<O>, op: PathOp<O>)
    ensures op in OpsOf(item) <==> Declares(item, op)
  {}

  /** The operations collected are those the path items declare, each under its own path and method. */
  lemma {:induction false} CollectExact<O>(doc: seq<PathItem<O>>, op: PathOp<O>)
    ensures op in Collect(doc) <==> exists k :: 0 <= k < |doc| && Declares(doc[k], op)
  {
    if doc != [] {
      hide OpsOf, Declares;
      var n := |doc| - 1;
      CollectExact(doc[..n], op);
      DeclaredByItem(doc[n], op);
      DeclaredEarlier(doc, op);
    }
  }

  lemma DeclaredEarlier<O>(doc: seq<PathItem<O>>, op: PathOp<O>)
    requires doc != []
    ensures var n := |doc| - 1;
            (exists k :: 0 <= k < |doc| && Declares(doc[k], op)) <==>
              (exists k :: 0 <= k < n && Declares(doc[..n][k], op)) || Declares(doc[n], op)
  {
    hide Declares;
    assert forall k :: 0 <= k < |doc| - 1 ==> doc[..|doc| - 1][k] == doc[k];
  }

  // ----- Their order -----

  /** A method of a path item. */
  datatype Place = Place(item: nat, verb: nat)

  /** Document order, and within one path item the order of the methods. */
  ghost predicate Earlier(a: Place, b: Place) {
    a.item < b.item || (a.item == b.item && a.verb < b.verb)
  }

  ghost predicate Occupied<O>(doc: seq<PathItem<O>>, p: Place) {
    p.item < |doc| && p.verb < |VERBS| && OperationAt(doc[p.item], VERBS[p.verb]).Some?
  }

  ghost function OpAt<O>(doc: seq<PathItem<O>>, p: Place): PathOp<O>
    requires Occupied(doc, p)
  {
    PathOp(doc[p.item].path, VERBS[p.verb], OperationAt(doc[p.item], VERBS[p.verb]).value)
  }

  ghost predicate Increasing(at: seq<Place>) {
    forall i, j :: 0 <= i < j < |at| ==> Earlier(at[i], at[j])
  }

  ghost predicate ListsAll<O>(doc: seq<PathItem<O>>, at: seq<Place>) {
    forall p {:trigger p in at} :: p in at <==> Occupied(doc, p)
  }

  ghost predicate Reads<O>(doc: seq<PathItem<O>>, at: seq<Place>, ops: seq<PathOp<O>>) {
    |ops| == |at| && forall i :: 0 <= i < |at| ==> Occupied(doc, at[i]) && ops[i] == OpAt(doc, at[i])
  }

  /** The places of one item, and what stands there. */
  lemma ItemPlaces<O>(doc: seq<PathItem<O>>, n: nat) returns (at: seq<Place>)
    requires n < |doc|
    ensures Increasing(at) && Reads(doc, at, OpsOf(doc[n]))
    ensures forall p {:trigger p in at} :: p in at <==> p.item == n && Occupied(doc, p)
  {
    at := PlacesOf(doc, n, 5);
    PlacesAre(doc, n, 5);
    PlacesRead(doc, n);
  }

  ghost function PlacesOf<O>(doc: seq<PathItem<O>>, n: nat, k: nat): seq<Place>
    requires n < |doc| && k <= |VERBS|
  {
    if k == 0 then []
    else PlacesOf(doc, n, k - 1) + (if Occupied(doc, Place(n, k - 1)) then [Place(n, k - 1)] else [])
  }

  lemma {:induction false} PlacesAre<O>(doc: seq<PathItem<O>>, n: nat, k: nat)
    requires n < |doc| && k <= |VERBS|
    ensures Increasing(PlacesOf(doc, n, k))
    ensures forall p {:trigger p in PlacesOf(doc, n, k)} ::
              p in PlacesOf(doc, n, k) <==> p.item == n && p.verb < k && Occupied(doc, p)
  {
    if k > 0 {
      hide Occupied, Increasing;
      PlacesAre(doc, n, k - 1);
      var before := PlacesOf(doc, n, k - 1);
      forall i | 0 <= i < |before| ensures before[i].item == n && before[i].verb < k - 1 {
        assert before[i] in before;
      }
      OneMorePlace(before, Place(n, k - 1));
    } else {
      assert Increasing([]);
    }
  }

  lemma OneMorePlace(before: seq<Place>, p: Place)
    requires Increasing(before) && forall i :: 0 <= i < |before| ==> Earlier(before[i], p)
    ensures Increasing(before + [p])
  {}

  ghost function OpsAt<O>(doc: seq<PathItem<O>>, n: nat, k: nat): seq<PathOp<O>>
    requires n < |doc| && k <= |VERBS|
  {
    if k == 0 then [] else OpsAt(doc, n, k - 1) + OpFor(doc[n].path, VERBS[k - 1], OperationAt(doc[n], VERBS[k - 1]))
  }

  lemma {:induction false} OpsAtRead<O>(doc: seq<PathItem<O>>, n: nat, k: nat)
    requires n < |doc| && k <= |VERBS|
    ensures Reads(doc, PlacesOf(doc, n, k), OpsAt(doc, n, k))
  {
    if k > 0 {
      OpsAtRead(doc, n, k - 1);
      OneRead(doc, Place(n, k - 1));
      hide Reads, Occupied, OperationAt, OpFor;
      JoinRead(doc, PlacesOf(doc, n, k - 1), if Occupied(doc, Place(n, k - 1)) then [Place(n, k - 1)] else [],
               OpsAt(doc, n, k - 1), OpFor(doc[n].path, VERBS[k - 1], OperationAt(doc[n], VERBS[k - 1])));
    }
  }

  lemma OneRead<O>(doc: seq<PathItem<O>>, p: Place)
    requires p.item < |doc| && p.verb < |VERBS|
    ensures Reads(doc, if Occupied(doc, p) then [p] else [],
                  OpFor(doc[p.item].path, VERBS[p.verb], OperationAt(doc[p.item], VERBS[p.verb])))
  {
    hide OperationAt;
  }

  lemma PlacesRead<O>(doc: seq<PathItem<O>>, n: nat)
    requires n < |doc|
    ensures Reads(doc, PlacesOf(doc, n, 5), OpsOf(doc[n]))
  {
    OpsAtRead(doc, n, 5);
    hide Reads, PlacesOf;
    var path := doc[n].path;
    if doc[n].item.Some? {
      var m := doc[n].item.value;
      hide OpFor;
      assert OpsAt(doc, n, 1) == OpFor(path, "GET", m.get);
      assert OpsAt(doc, n, 2) == OpsAt(doc, n, 1) + OpFor(path, "POST", m.post);
      assert OpsAt(doc, n, 3) == OpsAt(doc, n, 2) + OpFor(path, "PUT", m.put);
      assert OpsAt(doc, n, 4) == OpsAt(doc, n, 3) + OpFor(path, "PATCH", m.patch);
    } else {
      assert OpsAt(doc, n, 1) == OpsAt(doc, n, 2) == OpsAt(doc, n, 3) == OpsAt(doc, n, 4) == [];
    }
  }

  /** Every operation is collected once, in document order and then GET, POST, PUT, PATCH, DELETE. */
  lemma {:induction false} CollectOrder<O>(doc: seq<PathItem<O>>) returns (at: seq<Place>)
    ensures Increasing(at) && ListsAll(doc, at) && Reads(doc, at, Collect(doc))
  {
    if doc == [] {
      at := [];
    } else {
      hide Occupied, Increasing, Reads, OpsOf;
      var n := |doc| - 1;
      var before := CollectOrder(doc[..n]);
      var own := ItemPlaces(doc, n);
      at := before + own;
      PlacesKept(doc, before, Collect(doc[..n]));
      JoinPlaces(doc, before, own, Collect(doc[..n]), OpsOf(doc[n]));
    }
  }

  lemma PlacesKept<O>(doc: seq<PathItem<O>>, before: seq<Place>, ops: seq<PathOp<O>>)
    requires doc != [] && ListsAll(doc[..|doc| - 1], before) && Reads(doc[..|doc| - 1], before, ops)
    ensures forall p {:trigger p in before} :: p in before <==> p.item < |doc| - 1 && Occupied(doc, p)
    ensures Reads(doc, before, ops)
  {
    hide OperationAt;
    assert forall k :: 0 <= k < |doc| - 1 ==> doc[..|doc| - 1][k] == doc[k];
  }

  lemma JoinPlaces<O>(doc: seq<PathItem<O>>, a: seq<Place>, b: seq<Place>, opsA: seq<PathOp<O>>, opsB: seq<PathOp<O>>)
    requires doc != [] && Increasing(a) && Increasing(b) && Reads(doc, a, opsA) && Reads(doc, b, opsB)
    requires forall p {:trigger p in a} :: p in a <==> p.item < |doc| - 1 && Occupied(doc, p)
    requires forall p {:trigger p in b} :: p in b <==> p.item == |doc| - 1 && Occupied(doc, p)
    ensures Increasing(a + b) && ListsAll(doc, a + b) && Reads(doc, a + b, opsA + opsB)
  {
    hide Occupied;
    forall i | 0 <= i < |a| ensures a[i].item < |doc| - 1 {
      assert a[i] in a;
    }
    forall j | 0 <= j < |b| ensures b[j].item == |doc| - 1 {
      assert b[j] in b;
    }
    JoinRead(doc, a, b, opsA, opsB);
    hide Increasing, Reads;
    forall p ensures p in a + b <==> Occupied(doc, p) {
      assert Occupied(doc, p) ==> p.item < |doc| by { InDocument(doc, p); }
    }
  }

  lemma InDocument<O>(doc: seq<PathItem<O>>, p: Place)
    ensures Occupied(doc, p) ==> p.item < |doc|
  {}

  lemma JoinRead<O>(doc: seq<PathItem<O>>, a: seq<Place>, b: seq<Place>, opsA: seq<PathOp<O>>, opsB: seq<PathOp<O>>)
    requires Reads(doc, a, opsA) && Reads(doc, b, opsB)
    ensures Reads(doc, a + b, opsA + opsB)
  {
    hide OpAt, Occupied;
  }

  // ----- Buckets -----

  ghost predicate IsBraced(segment: string) {
    exists name :: segment == "{" + name + "}"
  }

  lemma Braced(name: string)
    ensures var segment := "{" + name + "}";
            IsParam(segment) && |segment| == |name| + 2 && segment[1..|segment| - 1] == name
  {}

  lemma BracedExact(segment: string)
    ensures IsParam(segment) <==> IsBraced(segment)
    ensures IsParam(segment) ==> segment == "{" + segment[1..|segment| - 1] + "}"
    ensures forall name :: segment == "{" + name + "}" ==> |segment| >= 2 && name == segment[1..|segment| - 1]
  {
    if IsParam(segment) {
      assert segment == "{" + segment[1..|segment| - 1] + "}";
    }
    forall name | segment == "{" + name + "}"
      ensures IsParam(segment) && |segment| >= 2 && name == segment[1..|segment| - 1] {
      Braced(name);
    }
  }

  ghost predicate OneBraced(segments: seq<string>) {
    exists i :: 0 <= i < |segments| && IsBraced(segments[i])
  }

  ghost predicate TwoBraced(segments: seq<string>) {
    exists i, j :: 0 <= i < j < |segments| && IsBraced(segments[i]) && IsBraced(segments[j])
  }

  lemma {:induction false} CountExact(segments: seq<string>)
    ensures CountParams(segments) >= 1 <==> OneBraced(segments)
    ensures CountParams(segments) >= 2 <==> TwoBraced(segments)
  {
    if segments != [] {
      hide IsParam, IsBraced;
      var rest := segments[1..];
      CountExact(rest);
      BracedExact(segments[0]);
      OneMoreSegment(segments);
    }
  }

  lemma OneMoreSegment(segments: seq<string>)
    requires segments != []
    ensures OneBraced(segments) <==> IsBraced(segments[0]) || OneBraced(segments[1..])
    ensures TwoBraced(segments) <==> TwoBraced(segments[1..]) || (IsBraced(segments[0]) && OneBraced(segments[1..]))
  {
    hide IsBraced;
    var rest := segments[1..];
    assert forall i :: 0 <= i < |rest| ==> rest[i] == segments[i + 1];
    assert forall i :: 0 < i < |segments| ==> segments[i] == rest[i - 1];
    if OneBraced(rest) {
      var i :| 0 <= i < |rest| && IsBraced(rest[i]);
      assert IsBraced(segments[i + 1]);
    }
    if TwoBraced(rest) {
      var i, j :| 0 <= i < j < |rest| && IsBraced(rest[i]) && IsBraced(rest[j]);
      assert IsBraced(segments[i + 1]) && IsBraced(segments[j + 1]);
    }
  }

  lemma {:induction false} LastSlashExact(before: string, segment: string)
    requires '/' !in segment
    ensures LastSlash(before + "/" + segment) == Some(|before|) && LastSlash(segment) == None
    decreases |segment|
  {
    if segment != "" {
      var shorter := segment[..|segment| - 1];
      LastSlashExact(before, shorter);
      assert (before + "/" + segment)[..|before + "/" + segment| - 1] == before + "/" + shorter;
      assert segment[|segment| - 1] in segment;
    }
  }

  lemma {:induction false} LastJoined(parts: seq<string>)
    requires |parts| > 1
    ensures Join(parts, '/') == Join(parts[..|parts| - 1], '/') + "/" + parts[|parts| - 1]
  {
    var n := |parts| - 1;
    if n == 1 {
      assert parts[1..] == [parts[1]] && parts[..1] == [parts[0]];
    } else {
      LastJoined(parts[1..]);
      assert parts[..n][1..] == parts[1..][..n - 1];
    }
  }

  /** The last segment of a path, and all before it. */
  lemma LastOf(path: string) returns (before: string)
    ensures '/' !in LastSegment(path)
    ensures if '/' in path then path == before + "/" + LastSegment(path) else path == LastSegment(path)
  {
    var parts := Split(path, '/');
    JoinSplit(path, '/');
    hide Split;
    var n := |parts| - 1;
    if n == 0 {
      before := "";
    } else {
      LastJoined(parts);
      before := Join(parts[..n], '/');
      assert path[|before|] == '/';
    }
  }

  /**
   * Paths with two parameters or more are set aside. A path whose last segment is its only parameter belongs
   * to the collection of all before it, the root when that is nothing; any other path is a collection.
   */
  lemma BucketExact(path: string, key: string)
    ensures var segments := Split(path, '/');
            var last := segments[|segments| - 1];
            && (BucketOf(path) == Skipped <==> TwoBraced(segments))
            && (BucketOf(path) == OfCollection(key) <==> key == path && !TwoBraced(segments) && !IsBraced(last))
            && (BucketOf(path) == OfItem(key) <==> !TwoBraced(segments) && IsBraced(last) && IsBefore(path, last, key))
  {
    CountExact(Split(path, '/'));
    BracedExact(LastSegment(path));
    StripExact(path, key);
    hide Split, CountParams, IsParam, IsBraced, TwoBraced, StripTrailingParam, IsBefore;
  }

  /** What stands before the last segment: nothing, the root, or a path. */
  ghost predicate IsBefore(path: string, last: string, key: string) {
    if path == last then key == ""
    else if path == "/" + last then key == "/"
    else path == key + "/" + last
  }

  /** The parameter of an item path is what its last segment has between braces. */
  lemma TrailingExact(path: string, name: string)
    ensures TrailingParam(path) == Some(name) <==> LastSegment(path) == "{" + name + "}"
  {
    var last := LastSegment(path);
    BracedExact(last);
    Braced(name);
    hide LastSegment;
  }

  lemma StripExact(path: string, key: string)
    ensures StripTrailingParam(path) == key <==> IsBefore(path, LastSegment(path), key)
  {
    var last := LastSegment(path);
    var before := LastOf(path);
    hide Split, LastSegment, LastSlash;
    LastSlashExact(before, last);
    if '/' in path {
      BehindSlash(before, last);
    } else {
      assert |"/" + last| == 1 + |last|;
    }
  }

  lemma BehindSlash(before: string, last: string)
    ensures var path := before + "/" + last;
            && path[..|before|] == before && path != last && (path == "/" + last <==> before == "")
            && forall key :: path == key + "/" + last <==> key == before
  {
    var path := before + "/" + last;
    forall key | path == key + "/" + last ensures key == before {
      assert path[..|key|] == key && |key| == |before|;
    }
    assert "" + "/" + last == "/" + last;
    assert |"/" + last| == 1 + |last|;
  }

  // ----- The slots of a group -----

  ghost predicate InBucket<O>(doc: seq<PathItem<O>>, k: int, bucket: Bucket) {
    0 <= k < |doc| && BucketOf(doc[k].path) == bucket
  }

  /** The slot holds what the last path item of the bucket with this method declares under it. */
  ghost predicate HoldsLast<O>(doc: seq<PathItem<O>>, bucket: Bucket, verb: string, slot: Option<PathOp<O>>) {
    if slot.None? then forall k :: InBucket(doc, k, bucket) ==> OperationAt(doc[k], verb).None?
    else
      && slot.value.verb == verb
      && exists k :: InBucket(doc, k, bucket) && Declares(doc[k], slot.value)
           && forall j :: k < j && InBucket(doc, j, bucket) ==> OperationAt(doc[j], verb).None?
  }

  /** The slot holds what the first path item of the bucket with this method declares under it. */
  ghost predicate HoldsFirst<O>(doc: seq<PathItem<O>>, bucket: Bucket, verb: string, slot: Option<PathOp<O>>) {
    if slot.None? then forall k :: InBucket(doc, k, bucket) ==> OperationAt(doc[k], verb).None?
    else
      && slot.value.verb == verb
      && exists k :: InBucket(doc, k, bucket) && Declares(doc[k], slot.value)
           && forall j :: j < k && InBucket(doc, j, bucket) ==> OperationAt(doc[j], verb).None?
  }

  lemma {:induction false} InConcat<O>(a: seq<PathOp<O>>, b: seq<PathOp<O>>, bucket: Bucket)
    ensures In(a + b, bucket) == In(a, bucket) + In(b, bucket)
    decreases |b|
  {
    if b == [] {
      assert a + b == a;
    } else {
      var n := |b| - 1;
      assert a + b == a + b[..n] + [b[n]] && b == b[..n] + [b[n]];
      hide In;
      InConcat(a, b[..n], bucket);
      InAppend(a + b[..n], b[n], bucket);
      InAppend(b[..n], b[n], bucket);
    }
  }

  lemma {:induction false} InOnePath<O>(ops: seq<PathOp<O>>, path: string, bucket: Bucket)
    requires forall i :: 0 <= i < |ops| ==> ops[i].path == path
    ensures In(ops, bucket) == if BucketOf(path) == bucket then ops else []
  {
    if ops != [] {
      hide BucketOf;
      var n := |ops| - 1;
      InOnePath(ops[..n], path, bucket);
      assert ops == ops[..n] + [ops[n]];
    }
  }

  lemma {:induction false} LastConcat<O>(a: seq<PathOp<O>>, b: seq<PathOp<O>>, verb: string)
    ensures LastWith(a + b, verb) == if LastWith(b, verb).Some? then LastWith(b, verb) else LastWith(a, verb)
    decreases |b|
  {
    if b == [] {
      assert a + b == a;
    } else {
      var n := |b| - 1;
      assert (a + b)[..|a + b| - 1] == a + b[..n];
      LastConcat(a, b[..n], verb);
    }
  }

  lemma {:induction false} FirstConcat<O>(a: seq<PathOp<O>>, b: seq<PathOp<O>>, verb: string)
    ensures FirstWith(a + b, verb) == if FirstWith(a, verb).Some? then FirstWith(a, verb) else FirstWith(b, verb)
    decreases |b|
  {
    if b == [] {
      assert a + b == a;
    } else {
      var n := |b| - 1;
      assert (a + b)[..|a + b| - 1] == a + b[..n];
      FirstConcat(a, b[..n], verb);
    }
  }

  lemma OpsOfPath<O>(item: PathItem<O>)
    ensures forall i :: 0 <= i < |OpsOf(item)| ==> OpsOf(item)[i].path == item.path
  {
    forall i | 0 <= i < |OpsOf(item)| ensures OpsOf(item)[i].path == item.path {
      DeclaredByItem(item, OpsOf(item)[i]);
    }
  }

  /** Of one path item, each method is declared at most once. */
  lemma OneOfVerb<O>(item: PathItem<O>, verb: string)
    requires verb in VERBS
    ensures LastWith(OpsOf(item), verb) == FirstWith(OpsOf(item), verb)
    ensures match LastWith(OpsOf(item), verb)
            case None => OperationAt(item, verb).None?
            case Some(op) => op.verb == verb && Declares(item, op)
  {
    var ops := OpsOf(item);
    LastWithIs(ops, verb);
    FirstWithIs(ops, verb);
    hide LastWith, FirstWith, OpsOf;
    if LastWith(ops, verb).Some? {
      DeclaredByItem(item, LastWith(ops, verb).value);
      DeclaredByItem(item, FirstWith(ops, verb).value);
    } else if OperationAt(item, verb).Some? {
      DeclaredByItem(item, PathOp(item.path, verb, OperationAt(item, verb).value));
    }
  }

  lemma CollectedIn<O>(doc: seq<PathItem<O>>, bucket: Bucket)
    requires doc != []
    ensures var n := |doc| - 1;
            In(Collect(doc), bucket) ==
            In(Collect(doc[..n]), bucket) + (if BucketOf(doc[n].path) == bucket then OpsOf(doc[n]) else [])
  {
    hide In, OpsOf, BucketOf;
    var n := |doc| - 1;
    InConcat(Collect(doc[..n]), OpsOf(doc[n]), bucket);
    OpsOfPath(doc[n]);
    InOnePath(OpsOf(doc[n]), doc[n].path, bucket);
  }

  lemma {:induction false} LastDeclared<O>(doc: seq<PathItem<O>>, bucket: Bucket, verb: string)
    requires verb in VERBS
    ensures HoldsLast(doc, bucket, verb, LastWith(In(Collect(doc), bucket), verb))
  {
    if doc != [] {
      hide In, OpsOf, BucketOf, LastWith, Declares, OperationAt, Collect;
      var n := |doc| - 1;
      var before, own := In(Collect(doc[..n]), bucket), OpsOf(doc[n]);
      LastDeclared(doc[..n], bucket, verb);
      CollectedIn(doc, bucket);
      LastConcat(before, own, verb);
      OneOfVerb(doc[n], verb);
      assert before + [] == before;
      LastOneMore(doc, bucket, verb, LastWith(before, verb), LastWith(own, verb));
    }
  }

  lemma LastOneMore<O>(doc: seq<PathItem<O>>, bucket: Bucket, verb: string, before: Option<PathOp<O>>,
                       own: Option<PathOp<O>>)
    requires doc != [] && HoldsLast(doc[..|doc| - 1], bucket, verb, before)
    requires if own.None? then OperationAt(doc[|doc| - 1], verb).None?
             else own.value.verb == verb && Declares(doc[|doc| - 1], own.value)
    ensures var last := |doc| - 1;
            HoldsLast(doc, bucket, verb, if BucketOf(doc[last].path) == bucket && own.Some? then own else before)
  {
    hide BucketOf, Declares, OperationAt;
    var n := |doc| - 1;
    assert forall k :: InBucket(doc[..n], k, bucket) <==> k < n && InBucket(doc, k, bucket);
    if BucketOf(doc[n].path) == bucket && own.Some? {
      assert InBucket(doc, n, bucket);
    } else if before.Some? {
      var k :| InBucket(doc[..n], k, bucket) && Declares(doc[..n][k], before.value)
               && forall j :: k < j && InBucket(doc[..n], j, bucket) ==> OperationAt(doc[..n][j], verb).None?;
      assert InBucket(doc, k, bucket) && Declares(doc[k], before.value);
    }
  }

  lemma {:induction false} FirstDeclared<O>(doc: seq<PathItem<O>>, bucket: Bucket, verb: string)
    requires verb in VERBS
    ensures HoldsFirst(doc, bucket, verb, FirstWith(In(Collect(doc), bucket), verb))
  {
    if doc != [] {
      hide In, OpsOf, BucketOf, FirstWith, LastWith, Declares, OperationAt, Collect;
      var n := |doc| - 1;
      var before, own := In(Collect(doc[..n]), bucket), OpsOf(doc[n]);
      FirstDeclared(doc[..n], bucket, verb);
      CollectedIn(doc, bucket);
      FirstConcat(before, own, verb);
      OneOfVerb(doc[n], verb);
      assert before + [] == before;
      FirstOneMore(doc, bucket, verb, FirstWith(before, verb), FirstWith(own, verb));
    }
  }

  lemma FirstOneMore<O>(doc: seq<PathItem<O>>, bucket: Bucket, verb: string, before: Option<PathOp<O>>,
                        own: Option<PathOp<O>>)
    requires doc != [] && HoldsFirst(doc[..|doc| - 1], bucket, verb, before)
    requires if own.None? then OperationAt(doc[|doc| - 1], verb).None?
             else own.value.verb == verb && Declares(doc[|doc| - 1], own.value)
    ensures var last := |doc| - 1;
            HoldsFirst(doc, bucket, verb,
                       if before.Some? then before else if BucketOf(doc[last].path) == bucket then own else None)
  {
    hide BucketOf, Declares, OperationAt;
    var n := |doc| - 1;
    assert forall k :: InBucket(doc[..n], k, bucket) <==> k < n && InBucket(doc, k, bucket);
    if before.Some? {
      var k :| InBucket(doc[..n], k, bucket) && Declares(doc[..n][k], before.value)
               && forall j :: j < k && InBucket(doc[..n], j, bucket) ==> OperationAt(doc[..n][j], verb).None?;
      assert InBucket(doc, k, bucket) && Declares(doc[k], before.value);
    } else if BucketOf(doc[n].path) == bucket && own.Some? {
      assert InBucket(doc, n, bucket);
    }
  }

  /**
   * What fills a group: create and list are the POST and GET of its collection path, read and delete the GET
   * and DELETE of its item paths, update their PUT, and their PATCH only where none of them has a PUT.
   */
  lemma GroupSlots<O>(doc: seq<PathItem<O>>, key: string)
    ensures var g := GroupFor(Collect(doc), key);
            && g.collectionPath == key
            && HoldsLast(doc, OfCollection(key), "POST", g.create)
            && HoldsLast(doc, OfCollection(key), "GET", g.list)
            && HoldsLast(doc, OfItem(key), "GET", g.read)
            && HoldsLast(doc, OfItem(key), "DELETE", g.delete)
            && (if HoldsLast(doc, OfItem(key), "PUT", None) then HoldsFirst(doc, OfItem(key), "PATCH", g.update)
                else HoldsLast(doc, OfItem(key), "PUT", g.update))
  {
    LastDeclared(doc, OfCollection(key), "POST");
    LastDeclared(doc, OfCollection(key), "GET");
    LastDeclared(doc, OfItem(key), "GET");
    LastDeclared(doc, OfItem(key), "DELETE");
    LastDeclared(doc, OfItem(key), "PUT");
    FirstDeclared(doc, OfItem(key), "PATCH");
    hide In, Collect, BucketOf, LastWith, FirstWith, Declares, OperationAt;
  }
}
