/** Searching, splitting and joining, over characters or bytes alike. */
module Strings {
  import opened Options

  /** `p` occurs in `s` at index `i`. */
  predicate OccursAt<T(==)>(s: seq<T>, p: seq<T>, i: int) {
    0 <= i <= i + |p| <= |s| && s[i..i + |p|] == p
  }

  lemma OccursLater<T>(s: seq<T>, p: seq<T>)
    requires s != []
    ensures forall j :: j >= 0 ==> (OccursAt(s[1..], p, j) <==> OccursAt(s, p, j + 1))
  {
    forall j | j >= 0 ensures OccursAt(s[1..], p, j) <==> OccursAt(s, p, j + 1) {
      if j + |p| < |s| {
        assert s[1..][j..j + |p|] == s[j + 1..j + 1 + |p|];
      }
    }
  }

  lemma OccursFirst<T>(s: seq<T>, p: seq<T>)
    ensures OccursAt(s, p, 0) <==> p <= s
  {}

  /** The first occurrence of `p`. */
  function Find<T(==)>(s: seq<T>, p: seq<T>): (r: Option<nat>)
    ensures r.Some? ==> r.value + |p| <= |s|
  {
    if p <= s then Some(0)
    else if s == [] then None
    else match Find(s[1..], p)
      case None => None
      case Some(i) => Some(i + 1)
  }

  lemma {:induction false} FindExact<T>(s: seq<T>, p: seq<T>)
    ensures match Find(s, p)
            case None => forall j :: !OccursAt(s, p, j)
            case Some(i) => OccursAt(s, p, i) && forall j :: j < i ==> !OccursAt(s, p, j)
  {
    OccursFirst(s, p);
    if !(p <= s) && s != [] {
      OccursLater(s, p);
      FindExact(s[1..], p);
      assert forall j :: OccursAt(s, p, j) ==> OccursAt(s[1..], p, j - 1);
    }
  }

  lemma FindIs<T>(s: seq<T>, p: seq<T>, i: nat)
    requires OccursAt(s, p, i) && forall j :: 0 <= j < i ==> !OccursAt(s, p, j)
    ensures Find(s, p) == Some(i)
  {
    FindExact(s, p);
  }

  function StripPrefix<T(==)>(s: seq<T>, p: seq<T>): Option<seq<T>> {
    if p <= s then Some(s[|p|..]) else None
  }

  lemma StripExact<T>(s: seq<T>, p: seq<T>, rest: seq<T>)
    ensures StripPrefix(s, p) == Some(rest) <==> s == p + rest
    ensures StripPrefix(s, p).None? ==> s != p + rest
  {
    if p <= s {
      assert s == p + s[|p|..];
    }
    assert (p + rest)[|p|..] == rest;
  }

  /** The text before and after the first `p`. */
  function SplitOnce<T(==)>(s: seq<T>, p: seq<T>): Option<(seq<T>, seq<T>)> {
    match Find(s, p)
    case None => None
    case Some(i) => Some((s[..i], s[i + |p|..]))
  }

  lemma SplitOnceJoins<T>(s: seq<T>, p: seq<T>)
    ensures SplitOnce(s, p).Some? ==> s == SplitOnce(s, p).value.0 + p + SplitOnce(s, p).value.1
  {
    FindExact(s, p);
  }

  lemma OccursHead<T>(s: seq<T>, p: seq<T>, j: nat)
    requires p != [] && OccursAt(s, p, j)
    ensures s[j] == p[0]
  {
    assert s[j..j + |p|][0] == p[0];
  }

  /** Splitting at the first `p`, when the text before it lacks `p`'s first element. */
  lemma SplitOnceAt<T>(a: seq<T>, p: seq<T>, b: seq<T>)
    requires p != [] && p[0] !in a
    ensures SplitOnce(a + p + b, p) == Some((a, b))
  {
    var s := a + p + b;
    assert OccursAt(s, p, |a|);
    forall j | OccursAt(s, p, j) ensures j >= |a| {
      OccursHead(s, p, j);
    }
    FindIs(s, p, |a|);
    assert s[..|a|] == a && s[|a| + |p|..] == b;
  }

  lemma SplitOnceNone<T>(s: seq<T>, c: T)
    ensures SplitOnce(s, [c]).None? <==> c !in s
    ensures SplitOnce(s, [c]).Some? ==> c !in SplitOnce(s, [c]).value.0
    ensures SplitOnce(s, [c]).Some? ==> s == SplitOnce(s, [c]).value.0 + [c] + SplitOnce(s, [c]).value.1
  {
    FindExact(s, [c]);
    SplitOnceJoins(s, [c]);
    forall j | 0 <= j < |s| ensures OccursAt(s, [c], j) <==> s[j] == c {
      assert s[j..j + 1] == [s[j]];
    }
  }

  /** The maximal pieces between the separators: one more piece than separators. */
  function Split<T(==)>(s: seq<T>, c: T): (parts: seq<seq<T>>)
    ensures |parts| > 0
  {
    if s == [] then [[]]
    else
      var rest := Split(s[1..], c);
      if s[0] == c then [[]] + rest else [[s[0]] + rest[0]] + rest[1..]
  }

  function Join<T>(parts: seq<seq<T>>, c: T): seq<T>
    requires |parts| > 0
  {
    if |parts| == 1 then parts[0] else parts[0] + [c] + Join(parts[1..], c)
  }

  predicate Free<T(==)>(parts: seq<seq<T>>, c: T) {
    forall i :: 0 <= i < |parts| ==> c !in parts[i]
  }

  lemma {:induction false} JoinSplit<T>(s: seq<T>, c: T)
    ensures Join(Split(s, c), c) == s && Free(Split(s, c), c)
  {
    if s != [] {
      JoinSplit(s[1..], c);
      var parts, rest := Split(s, c), Split(s[1..], c);
      assert parts[1..] == if s[0] == c then rest else rest[1..];
      assert s == [s[0]] + s[1..];
    }
  }

  lemma {:induction false} SplitPiece<T>(a: seq<T>, c: T, b: seq<T>)
    requires c !in a
    ensures Split(a + [c] + b, c) == [a] + Split(b, c)
  {
    var s := a + [c] + b;
    if a == [] {
      assert s[1..] == b;
    } else {
      assert s[1..] == a[1..] + [c] + b;
      SplitPiece(a[1..], c, b);
      assert [a[0]] + a[1..] == a;
    }
  }

  lemma {:induction false} SplitWhole<T>(a: seq<T>, c: T)
    requires c !in a
    ensures Split(a, c) == [a]
  {
    if a != [] {
      SplitWhole(a[1..], c);
      assert [a[0]] + a[1..] == a;
    }
  }

  /** Separator-free pieces are what joining them splits back into. */
  lemma {:induction false} SplitJoin<T>(parts: seq<seq<T>>, c: T)
    requires |parts| > 0 && Free(parts, c)
    ensures Split(Join(parts, c), c) == parts
  {
    if |parts| == 1 {
      SplitWhole(parts[0], c);
    } else {
      SplitPiece(parts[0], c, Join(parts[1..], c));
      SplitJoin(parts[1..], c);
      assert parts == [parts[0]] + parts[1..];
    }
  }

  /** One element more in front of a split text. */
  ghost function Extend<T>(x: T, c: T, parts: seq<seq<T>>): seq<seq<T>>
    requires |parts| > 0
  {
    if x == c then [[]] + parts else [[x] + parts[0]] + parts[1..]
  }

  lemma SplitExtends<T>(x: T, s: seq<T>, c: T)
    ensures Split([x] + s, c) == Extend(x, c, Split(s, c))
  {
    assert ([x] + s)[1..] == s;
  }

  lemma ExtendAppend<T>(x: T, c: T, parts: seq<seq<T>>, more: seq<seq<T>>)
    requires |parts| > 0
    ensures Extend(x, c, parts + more) == Extend(x, c, parts) + more
  {
    assert (parts + more)[1..] == parts[1..] + more;
  }

  lemma SplitNothing<T>(c: T, parts: seq<seq<T>>)
    requires |parts| > 0
    ensures Split([], c) == [[]] && Extend(c, c, parts) == [[]] + parts
  {}

  lemma {:induction false} SplitAppend<T>(a: seq<T>, c: T, b: seq<T>)
    ensures Split(a + [c] + b, c) == Split(a, c) + Split(b, c)
  {
    hide Split, Extend;
    if a == [] {
      SplitNothing(c, Split(b, c));
      SplitExtends(c, b, c);
      assert [] + [c] + b == [c] + b;
    } else {
      var rest := a[1..];
      assert a == [a[0]] + rest && a + [c] + b == [a[0]] + (rest + [c] + b);
      SplitExtends(a[0], rest, c);
      SplitExtends(a[0], rest + [c] + b, c);
      SplitAppend(rest, c, b);
      ExtendAppend(a[0], c, Split(rest, c), Split(b, c));
    }
  }
}
