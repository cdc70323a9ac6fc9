/** JSON values over a type of text. */
module JsonValues {
  datatype Json<S> =
    | Null
    | Bool(flag: bool)
    | Number(number: real)
    | String(text: S)
    | Array(items: seq<Json<S>>)
    | Object(members: seq<(S, Json<S>)>)

  predicate IsContainer<S>(value: Json<S>) {
    value.Array? || value.Object?
  }

  function Values<S>(members: seq<(S, Json<S>)>): (values: seq<Json<S>>)
    ensures |values| == |members| && forall i :: 0 <= i < |values| ==> values[i] == members[i].1
  {
    seq(|members|, i requires 0 <= i < |members| => members[i].1)
  }

  function Children<S>(value: Json<S>): seq<Json<S>> {
    match value
    case Array(items) => items
    case Object(members) => Values(members)
    case _ => []
  }

  lemma ChildrenSmaller<S>(value: Json<S>, i: nat)
    requires i < |Children(value)|
    ensures Children(value)[i] < value
  {
    if value.Object? {
      assert value.members[i] < value;
    }
  }

  /** Nested containers, the root included. */
  ghost function Depth<S>(value: Json<S>): nat
    decreases value, |Children(value)| + 1
  {
    if !IsContainer(value) then 0 else 1 + Deepest(value, |Children(value)|)
  }

  ghost function Deepest<S>(value: Json<S>, n: nat): nat
    requires n <= |Children(value)|
    decreases value, n
  {
    if n == 0 then 0
    else
      ChildrenSmaller(value, n - 1);
      var last, rest := Depth(Children(value)[n - 1]), Deepest(value, n - 1);
      if last > rest then last else rest
  }

  lemma {:induction false} DeepestExact<S>(value: Json<S>, n: nat)
    requires n <= |Children(value)|
    ensures forall i :: 0 <= i < n ==> Depth(Children(value)[i]) <= Deepest(value, n)
    ensures Deepest(value, n) == 0 || exists i :: 0 <= i < n && Depth(Children(value)[i]) == Deepest(value, n)
  {
    hide Depth, Children;
    if n > 0 {
      DeepestExact(value, n - 1);
    }
  }
}
