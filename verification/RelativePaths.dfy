/** The relative URL written for the OpenAPI document, and the lexical path algebra behind it. */
module RelativePaths {
  import opened Options
  import opened Strings

  datatype Component = RootDir | CurDir | ParentDir | Normal(name: string)

  type Path = seq<Component>

  /** A file name that path parsing reads back as one normal component. */
  predicate IsName(s: string) {
    s != "" && s != "." && s != ".." && '/' !in s
  }

  predicate NamesOk(p: Path) {
    forall i :: 0 <= i < |p| && p[i].Normal? ==> IsName(p[i].name)
  }

  // ----- Lexical normalisation -----

  function NormStep(out: Path, c: Component): Path {
    match c
    case CurDir => out
    case ParentDir => if out != [] && out[|out| - 1].Normal? then out[..|out| - 1] else out + [c]
    case _ => out + [c]
  }

  function NormFrom(out: Path, p: Path): Path
    decreases |p|
  {
    if p == [] then out else NormFrom(NormStep(out, p[0]), p[1..])
  }

  function Normalize(p: Path): Path {
    NormFrom([], p)
  }

  /** `normalize_lexically`. */
  method NormalizeLexically(path: Path) returns (out: Path)
    ensures out == Normalize(path)
  {
    out := [];
    for i := 0 to |path|
      invariant NormFrom(out, path[i..]) == Normalize(path)
    {
      assert path[i..][1..] == path[i + 1..];
      match path[i] {
        case CurDir =>
        case ParentDir =>
          if out != [] && out[|out| - 1].Normal? {
            out := out[..|out| - 1];
          } else {
            out := out + [path[i]];
          }
        case other => out := out + [other];
      }
    }
  }

  /** No `.`, and no `..` behind a normal component: nothing left to cancel. */
  predicate Reduced(p: Path) {
    && (forall i :: 0 <= i < |p| ==> !p[i].CurDir?)
    && (forall i :: 0 < i < |p| && p[i].ParentDir? ==> !p[i - 1].Normal?)
  }

  lemma {:induction false} NormAppend(out: Path, p: Path, q: Path)
    ensures NormFrom(out, p + q) == NormFrom(NormFrom(out, p), q)
    decreases |p|
  {
    if p == [] {
      assert p + q == q;
    } else {
      assert (p + q)[1..] == p[1..] + q;
      NormAppend(NormStep(out, p[0]), p[1..], q);
    }
  }

  lemma {:induction false} NormReduces(out: Path, p: Path)
    requires Reduced(out)
    ensures Reduced(NormFrom(out, p))
    decreases |p|
  {
    if p != [] {
      NormReduces(NormStep(out, p[0]), p[1..]);
    }
  }

  /** A path that extends `out` without anything to cancel is appended as it is. */
  lemma {:induction false} NormOfReduced(out: Path, p: Path)
    requires Reduced(out + p)
    ensures NormFrom(out, p) == out + p
    decreases |p|
  {
    if p == [] {
      assert out + p == out;
    } else {
      assert (out + p)[|out|] == p[0];
      assert out != [] ==> (out + p)[|out| - 1] == out[|out| - 1];
      assert out + [p[0]] + p[1..] == out + p;
      NormOfReduced(out + [p[0]], p[1..]);
    }
  }

  /** Normalising twice is normalising once, and a prefix may be normalised first. */
  lemma NormalizeIdempotent(p: Path, q: Path)
    ensures Reduced(Normalize(p)) && Normalize(Normalize(p)) == Normalize(p)
    ensures Normalize(Normalize(p) + q) == Normalize(p + q)
  {
    NormReduces([], p);
    assert [] + Normalize(p) == Normalize(p);
    NormOfReduced([], Normalize(p));
    NormAppend([], p, q);
    NormAppend([], Normalize(p), q);
  }

  // ----- What a path names -----

  /** The names from the root to a file, symbolic links aside. */
  type Place = seq<string>

  /** One component from a place; the root is its own parent. */
  function WalkStep(at: Place, c: Component): Place {
    match c
    case RootDir => []
    case CurDir => at
    case ParentDir => if at == [] then [] else at[..|at| - 1]
    case Normal(name) => at + [name]
  }

  /** Where a path leads from a place, as a file system follows it. */
  function Walk(at: Place, p: Path): Place
    decreases |p|
  {
    if p == [] then at else Walk(WalkStep(at, p[0]), p[1..])
  }

  lemma {:induction false} WalkAppend(at: Place, p: Path, q: Path)
    ensures Walk(at, p + q) == Walk(Walk(at, p), q)
    decreases |p|
  {
    if p == [] {
      assert p + q == q;
    } else {
      assert (p + q)[1..] == p[1..] + q;
      WalkAppend(WalkStep(at, p[0]), p[1..], q);
    }
  }

  lemma WalkLast(at: Place, p: Path, c: Component)
    ensures Walk(at, p + [c]) == WalkStep(Walk(at, p), c)
  {
    WalkAppend(at, p, [c]);
    assert [c][1..] == [];
  }

  lemma {:induction false} NormFromWalks(at: Place, out: Path, p: Path)
    ensures Walk(at, NormFrom(out, p)) == Walk(at, out + p)
    decreases |p|
  {
    hide Walk, NormStep;
    if p == [] {
      assert out + p == out;
    } else {
      var next := NormStep(out, p[0]);
      NormFromWalks(at, next, p[1..]);
      StepWalks(at, out, p[0]);
      WalkAppend(at, next, p[1..]);
      WalkAppend(at, out + [p[0]], p[1..]);
      assert out + [p[0]] + p[1..] == out + p;
    }
  }

  lemma StepWalks(at: Place, out: Path, c: Component)
    ensures Walk(at, NormStep(out, c)) == Walk(at, out + [c])
  {
    WalkLast(at, out, c);
    if c.ParentDir? && out != [] && out[|out| - 1].Normal? {
      var n := |out| - 1;
      WalkLast(at, out[..n], out[n]);
      assert out == out[..n] + [out[n]];
    }
  }

  /** Normalising a path does not change what it names, from any place. */
  lemma NormalizeNames(at: Place, p: Path)
    ensures Walk(at, Normalize(p)) == Walk(at, p)
  {
    NormFromWalks(at, [], p);
    assert [] + p == p;
  }

  // ----- Paths as text -----

  /** `Path::components` on one segment; `first` marks the first segment of a relative path. */
  function SegmentComponent(s: string, first: bool): Path {
    if s == "" then []
    else if s == "." then (if first then [CurDir] else [])
    else if s == ".." then [ParentDir]
    else [Normal(s)]
  }

  function SegmentComponents(parts: seq<string>, first: bool): Path {
    if parts == [] then [] else SegmentComponent(parts[0], first) + SegmentComponents(parts[1..], false)
  }

  function Components(s: string): Path {
    if "/" <= s then [RootDir] + SegmentComponents(Split(s[1..], '/'), false)
      else SegmentComponents(Split(s, '/'), true)
  }

  // ----- `relative_document_url` -----

  function CommonPrefix<T(==)>(a: seq<T>, b: seq<T>): (n: nat)
    ensures n <= |a| && n <= |b| && a[..n] == b[..n] && (n < |a| && n < |b| ==> a[n] != b[n])
  {
    if a == [] || b == [] || a[0] != b[0] then 0
    else
      var m := CommonPrefix(a[1..], b[1..]);
      assert a[..m + 1] == [a[0]] + a[1..][..m] && b[..m + 1] == [b[0]] + b[1..][..m];
      m + 1
  }

  function ComponentText(c: Component): string {
    match c case RootDir => "/" case CurDir => "." case ParentDir => ".." case Normal(name) => name
  }

  function Texts(p: Path): (parts: seq<string>)
    ensures |parts| == |p| && forall i :: 0 <= i < |p| ==> parts[i] == ComponentText(p[i])
  {
    seq(|p|, i requires 0 <= i < |p| => ComponentText(p[i]))
  }

  function Parents(n: nat): (p: Path)
    ensures |p| == n && forall i :: 0 <= i < n ==> p[i] == ParentDir
  {
    seq(n, _ => ParentDir)
  }

  datatype PathError = NoCommonRoot | SameDirectory

  function RelativeParts(spec: Path, output: Path): Path {
    var common := CommonPrefix(spec, output);
    Parents(|output| - common) + spec[common..]
  }

  function FirstSegment(url: string): string {
    Split(url, '/')[0]
  }

  /** Prefixes `./` when the first segment would read as a URI scheme. */
  function GuardUriSchemeAmbiguity(url: string): string {
    if ':' in FirstSegment(url) then "./" + url else url
  }

  lemma CommonPrefixStep(spec: Path, output: Path, n: nat)
    requires n < |spec| && n < |output| && spec[n] == output[n]
    ensures CommonPrefix(spec[n..], output[n..]) == 1 + CommonPrefix(spec[n + 1..], output[n + 1..])
  {
    assert spec[n..][1..] == spec[n + 1..] && output[n..][1..] == output[n + 1..];
  }

  lemma CommonPrefixEnd(spec: Path, output: Path, n: nat)
    requires n <= |spec| && n <= |output| && (n < |spec| && n < |output| ==> spec[n] != output[n])
    ensures CommonPrefix(spec[n..], output[n..]) == 0
  {}

  lemma WholeSlice<T>(s: seq<T>)
    ensures s[0..] == s
  {}

  lemma EmptySlice<T>(s: seq<T>, n: nat)
    requires n <= |s|
    ensures s[n..n] == []
  {}

  lemma SliceToEnd<T>(s: seq<T>, n: nat)
    requires n <= |s|
    ensures s[n..|s|] == s[n..]
  {}

  lemma SliceGrows<T>(before: seq<T>, s: seq<T>, n: nat, i: nat)
    requires n <= i < |s|
    ensures before + s[n..i] + [s[i]] == before + s[n..i + 1]
  {}

  lemma OneMoreParent(n: nat)
    ensures Parents(n) + [ParentDir] == Parents(n + 1) && Parents(0) == []
  {}

  /** From the two resolved paths. */
  method RelativeUrl(spec: Path, output: Path) returns (r: Result<string, PathError>)
    ensures r == RelativeUrlSpec(spec, output)
  {
    hide GuardUriSchemeAmbiguity, Join, Texts, CommonPrefix, Parents;
    var common := 0;
    WholeSlice(spec);
    WholeSlice(output);
    while common < |spec| && common < |output| && spec[common] == output[common]
      invariant 0 <= common <= |spec| && common <= |output|
      invariant CommonPrefix(spec, output) == common + CommonPrefix(spec[common..], output[common..])
    {
      CommonPrefixStep(spec, output, common);
      common := common + 1;
    }
    CommonPrefixEnd(spec, output, common);
    if common == 0 {
      return Err(NoCommonRoot);
    }
    r := RelativeUrlFrom(spec, output, common);
  }

  /** The climb out of the output directory, and the descent to the document. */
  method RelativeUrlFrom(spec: Path, output: Path, common: nat) returns (r: Result<string, PathError>)
    requires common == CommonPrefix(spec, output) > 0
    ensures r == RelativeUrlSpec(spec, output)
  {
    hide GuardUriSchemeAmbiguity, Join, Texts, CommonPrefix, Parents;
    var rel: Path := [];
    OneMoreParent(0);
    for i := common to |output|
      invariant rel == Parents(i - common)
    {
      OneMoreParent(i - common);
      rel := rel + [ParentDir];
    }
    ghost var up := rel;
    EmptySlice(spec, common);
    assert up + [] == up;
    for i := common to |spec|
      invariant rel == up + spec[common..i]
    {
      SliceGrows(up, spec, common, i);
      rel := rel + [spec[i]];
    }
    SliceToEnd(spec, common);
    if rel == [] {
      return Err(SameDirectory);
    }
    return Ok(GuardUriSchemeAmbiguity(Join(Texts(rel), '/')));
  }

  function RelativeUrlSpec(spec: Path, output: Path): Result<string, PathError> {
    if CommonPrefix(spec, output) == 0 then Err(NoCommonRoot)
    else if RelativeParts(spec, output) == [] then Err(SameDirectory)
    else Ok(GuardUriSchemeAmbiguity(Join(Texts(RelativeParts(spec, output)), '/')))
  }

  /** What resolving yields: a root, then nothing left to cancel, and no second root. */
  predicate Resolved(p: Path) {
    p != [] && p[0].RootDir? && Reduced(p) && NamesOk(p) && forall i :: 0 < i < |p| ==> !p[i].RootDir?
  }

  // ----- The URL as text reads back -----

  predicate UrlParts(p: Path) {
    NamesOk(p) && forall i :: 0 <= i < |p| ==> p[i].ParentDir? || p[i].Normal?
  }

  lemma {:induction false} SegmentsReadBack(p: Path, first: bool)
    requires UrlParts(p)
    ensures SegmentComponents(Texts(p), first) == p
    decreases |p|
  {
    if p != [] {
      assert Texts(p)[1..] == Texts(p[1..]);
      SegmentsReadBack(p[1..], false);
      assert p == [p[0]] + p[1..];
    }
  }

  /** What the guarded URL of nonempty segments splits into, and that no scheme opens it. */
  lemma GuardedSplits(parts: seq<string>)
    requires parts != [] && Free(parts, '/') && parts[0] != ""
    ensures var url := GuardUriSchemeAmbiguity(Join(parts, '/'));
            && ':' !in FirstSegment(url) && !("/" <= url)
            && Split(url, '/') == if ':' in parts[0] then ["."] + parts else parts
  {
    hide Split;
    var plain := Join(parts, '/');
    SplitJoin(parts, '/');
    StartsWithFirst(parts);
    DotFirst(parts);
    hide Join;
  }

  lemma StartsWithFirst(parts: seq<string>)
    requires parts != [] && Free(parts, '/') && parts[0] != ""
    ensures !("/" <= Join(parts, '/'))
  {
    assert Join(parts, '/')[0] == parts[0][0] && parts[0][0] in parts[0];
  }

  lemma DotFirst(parts: seq<string>)
    requires parts != [] && Free(parts, '/')
    ensures Split("./" + Join(parts, '/'), '/') == ["."] + parts && !("/" <= "./" + Join(parts, '/'))
  {
    hide Split;
    assert ("./" + Join(parts, '/'))[0] == '.';
    assert (["."] + parts)[1..] == parts;
    assert Join(["."] + parts, '/') == "." + ['/'] + Join(parts, '/') == "./" + Join(parts, '/');
    assert '/' !in ".";
    SplitJoin(["."] + parts, '/');
  }

  /** Parsing the guarded URL gives back its components, behind a leading `.` only where the first has a colon. */
  lemma UrlReadsBack(p: Path)
    requires UrlParts(p) && p != []
    ensures var url := GuardUriSchemeAmbiguity(Join(Texts(p), '/'));
            && ':' !in FirstSegment(url) && !("/" <= url)
            && Components(url) == if ':' in ComponentText(p[0]) then [CurDir] + p else p
  {
    var parts := Texts(p);
    assert Free(parts, '/') && parts[0] != "";
    hide Split, Join, GuardUriSchemeAmbiguity, FirstSegment, Texts;
    GuardedSplits(parts);
    SegmentsReadBack(p, true);
    SegmentsReadBack(p, false);
    assert (["."] + parts)[1..] == parts;
  }

  // ----- The URL leads back to the document -----

  /** Climbing out of names one level at a time removes them. */
  lemma {:induction false} ClimbNames(base: Path, names: Path)
    requires AllNormal(names)
    ensures NormFrom(base + names, Parents(|names|)) == base
    decreases |names|
  {
    var n := |names|;
    if n == 0 {
      assert base + names == base;
    } else {
      var all := base + names;
      assert Parents(n)[0] == ParentDir && Parents(n)[1..] == Parents(n - 1);
      assert all[|all| - 1] == names[n - 1];
      assert all[..|all| - 1] == base + names[..n - 1];
      ClimbNames(base, names[..n - 1]);
    }
  }

  predicate UpOrDown(p: Path) {
    forall i :: 0 <= i < |p| ==> p[i].ParentDir? || p[i].Normal?
  }

  predicate AllNormal(p: Path) {
    forall i :: 0 <= i < |p| ==> p[i].Normal?
  }

  /** With nothing left to cancel, every `..` stands before every name. */
  lemma {:induction false} ParentsFirst(tail: Path) returns (m: nat, names: Path)
    requires Reduced(tail) && UpOrDown(tail)
    ensures tail == Parents(m) + names && AllNormal(names)
    ensures m > 0 ==> tail != [] && tail[0].ParentDir?
    ensures m == 0 <==> ParentDir !in tail
    decreases |tail|
  {
    if tail == [] {
      m, names := 0, [];
    } else {
      var n := |tail| - 1;
      var before := tail[..n];
      assert tail == before + [tail[n]];
      assert forall i :: 0 <= i < n ==> before[i] == tail[i];
      m, names := ParentsFirst(before);
      if tail[n].Normal? {
        names := names + [tail[n]];
        assert tail == Parents(m) + names;
      } else {
        NoNamesBefore(before, m, names);
        OneMoreParent(m);
        m := m + 1;
        assert Parents(m) + [] == Parents(m);
      }
    }
  }

  lemma NoNamesBefore(p: Path, m: nat, names: Path)
    requires p == Parents(m) + names && AllNormal(names) && (p != [] ==> !p[|p| - 1].Normal?)
    ensures names == []
  {
    if names != [] {
      LastOfJoin(Parents(m), names);
    }
  }

  lemma LastOfJoin<T>(a: seq<T>, b: seq<T>)
    requires b != []
    ensures (a + b)[|a + b| - 1] == b[|b| - 1]
  {}

  lemma TailReduced(base: Path, tail: Path)
    requires base != [] && Reduced(base + tail)
    ensures Reduced(tail)
    ensures tail != [] && tail[0].ParentDir? ==> !base[|base| - 1].Normal?
  {
    var all := base + tail;
    assert forall i :: 0 <= i < |tail| ==> all[|base| + i] == tail[i];
    assert all[|base| - 1] == base[|base| - 1];
  }

  lemma AddParents(m: nat, n: nat)
    ensures Parents(m) + Parents(n) == Parents(m + n)
  {}

  /** Climbing out of a tail as often as it is long: every `..` in it is doubled instead of undone. */
  lemma Climb(base: Path, tail: Path) returns (m: nat)
    requires base != [] && Reduced(base + tail) && UpOrDown(tail)
    ensures NormFrom(base + tail, Parents(|tail|)) == base + Parents(m)
    ensures m == 0 <==> ParentDir !in tail
    ensures m > 0 ==> !base[|base| - 1].Normal?
  {
    hide NormFrom, Reduced, UpOrDown;
    TailReduced(base, tail);
    var ups, names := ParentsFirst(tail);
    AddParents(|names|, ups);
    NormAppend(base + tail, Parents(|names|), Parents(ups));
    assert base + (Parents(ups) + names) == base + Parents(ups) + names;
    ClimbNames(base + Parents(ups), names);
    m := ups + ups;
    ClimbTwice(base, ups);
  }

  lemma ClimbTwice(base: Path, m: nat)
    requires base != [] && (m > 0 ==> !base[|base| - 1].Normal?)
    ensures NormFrom(base + Parents(m), Parents(m)) == base + Parents(m + m)
  {
    hide NormFrom, Parents;
    if m > 0 {
      ClimbOn(base, m);
    } else {
      NoParents(base);
    }
  }

  lemma ClimbOn(base: Path, m: nat)
    requires base != [] && !base[|base| - 1].Normal?
    ensures NormFrom(base + Parents(m), Parents(m)) == base + Parents(m + m)
  {
    hide NormFrom, Parents;
    var p := Parents(m);
    PushParents(base, m);
    PushParents(base, m + m);
    AddParents(m, m);
    PushTwice(base, p);
  }

  lemma PushTwice(base: Path, p: Path)
    requires NormFrom(base, p) == base + p && NormFrom(base, p + p) == base + (p + p)
    ensures NormFrom(base + p, p) == base + (p + p)
  {
    hide NormFrom;
    NormAppend(base, p, p);
  }

  lemma NoParents(base: Path)
    ensures base + Parents(0) == base && NormFrom(base, Parents(0)) == base
  {}

  lemma {:induction false} PushParents(out: Path, m: nat)
    requires out != [] && !out[|out| - 1].Normal?
    ensures NormFrom(out, Parents(m)) == out + Parents(m)
    decreases m
  {
    if m == 0 {
      assert out + Parents(0) == out;
    } else {
      assert Parents(m)[1..] == Parents(m - 1);
      PushParents(out + [ParentDir], m - 1);
      assert out + [ParentDir] + Parents(m - 1) == out + Parents(m);
    }
  }

  /** The emitted URL joined onto the directory it is read in, normalised as text. */
  function Follow(output: Path, url: string): Path {
    Normalize(output + Components(url))
  }

  lemma FollowParts(output: Path, p: Path, components: Path)
    requires Reduced(output) && (components == p || components == [CurDir] + p)
    ensures Normalize(output + components) == NormFrom(output, p)
  {
    assert [] + output == output;
    NormOfReduced([], output);
    NormAppend([], output, components);
    if components == [CurDir] + p {
      assert components[1..] == p;
    }
  }

  lemma DescendBack(base: Path, m: nat, rest: Path)
    requires base != [] && Reduced(base + rest) && (m > 0 ==> !base[|base| - 1].Normal?)
    ensures NormFrom(base + Parents(m), rest) == base + Parents(m) + rest
  {
    var all := base + Parents(m) + rest;
    assert Reduced(all) by {
      forall i | 0 <= i < |all| ensures !all[i].CurDir? && (i > 0 && all[i].ParentDir? ==> !all[i - 1].Normal?) {
        if i < |base| {
          assert all[i] == (base + rest)[i] && (i > 0 ==> all[i - 1] == (base + rest)[i - 1]);
        } else if i > |base| + m {
          assert all[i] == (base + rest)[i - m] && all[i - 1] == (base + rest)[i - m - 1];
        } else if i == |base| + m {
          assert all[i] == (base + rest)[|base|];
          assert m == 0 ==> all[i - 1] == (base + rest)[|base| - 1];
        }
      }
    }
    NormOfReduced(base + Parents(m), rest);
  }

  /** A relative reference whose first segment cannot be read as a scheme. */
  ghost predicate IsRelative(url: string) {
    ':' !in FirstSegment(url) && !("/" <= url)
  }

  /**
   * For resolved paths, the URL is refused only for the directory itself; otherwise it is relative,
   * its first segment is free of colons, and following it from the output directory reaches the document.
   */
  lemma UrlLeadsBack(spec: Path, output: Path)
    requires Resolved(spec) && Resolved(output)
    ensures RelativeUrlSpec(spec, output).Err? <==> spec == output
    ensures RelativeUrlSpec(spec, output).Err? ==> RelativeUrlSpec(spec, output).error == SameDirectory
    ensures RelativeUrlSpec(spec, output).Ok? ==>
              && IsRelative(RelativeUrlSpec(spec, output).value)
              && Walk(Walk([], output), Components(RelativeUrlSpec(spec, output).value)) == Walk([], spec)
  {
    PathsSplit(spec, output);
    if RelativeParts(spec, output) != [] {
      var m := UrlFollowed(spec, output);
      var common := CommonPrefix(spec, output);
      var base, rest := spec[..common], spec[common..];
      var components := Components(RelativeUrlSpec(spec, output).value);
      PrefixResolved(spec, common);
      hide Components, Normalize, RelativeUrlSpec, CommonPrefix, Walk, Resolved;
      assert m > 0 ==> !base[|base| - 1].Normal?;
      WalkAppend([], output, components);
      NormalizeNames([], output + components);
      StayAtRoot(base, m);
      WalkAppend([], base + Parents(m), rest);
      WalkAppend([], base, rest);
    }
  }

  lemma PrefixResolved(p: Path, n: nat)
    requires Resolved(p) && 0 < n <= |p|
    ensures Resolved(p[..n])
  {}

  /** Where climbing stacks up `..` instead of undoing names, the place is the root, which is its own parent. */
  lemma StayAtRoot(base: Path, m: nat)
    requires Resolved(base) && (m > 0 ==> !base[|base| - 1].Normal?)
    ensures Walk([], base + Parents(m)) == Walk([], base)
  {
    if m == 0 {
      assert base + Parents(0) == base;
    } else {
      RootRun(base);
      WalkAppend([], base, Parents(m));
      ParentsOfRoot(m);
    }
  }

  lemma {:induction false} RootRun(base: Path)
    requires Resolved(base) && !base[|base| - 1].Normal?
    ensures Walk([], base) == []
    decreases |base|
  {
    var n := |base| - 1;
    assert base == base[..n] + [base[n]];
    WalkLast([], base[..n], base[n]);
    if n > 0 {
      RootRun(base[..n]);
    }
  }

  lemma {:induction false} ParentsOfRoot(m: nat)
    ensures Walk([], Parents(m)) == []
  {
    if m > 0 {
      assert Parents(m)[1..] == Parents(m - 1);
      ParentsOfRoot(m - 1);
    }
  }

  /**
   * As text the two paths need not agree: joined onto the output directory, the URL normalises to the
   * document's own path exactly when no `..` is left in the part of that directory the two do not share.
   */
  lemma UrlNormalizesBack(spec: Path, output: Path)
    requires Resolved(spec) && Resolved(output) && RelativeUrlSpec(spec, output).Ok?
    ensures Follow(output, RelativeUrlSpec(spec, output).value) == spec
            <==> ParentDir !in output[CommonPrefix(spec, output)..]
  {
    hide Follow, Normalize, Components, CommonPrefix, Resolved, IsRelative;
    var common := CommonPrefix(spec, output);
    var m := UrlFollowed(spec, output);
    JoinAt(spec, common);
    InsertedParents(spec[..common], m, spec[common..]);
  }

  lemma InsertedParents(base: Path, m: nat, rest: Path)
    ensures base + Parents(m) + rest == base + rest <==> m == 0
  {
    if m == 0 {
      NoParents(base);
    } else {
      assert |base + Parents(m) + rest| == |base + rest| + m;
    }
  }

  lemma PathsSplit(spec: Path, output: Path)
    requires Resolved(spec) && Resolved(output)
    ensures var common := CommonPrefix(spec, output);
            && common > 0 && UpOrDown(output[common..]) && UpOrDown(spec[common..])
            && spec == spec[..common] + spec[common..] && output == spec[..common] + output[common..]
  {
    hide CommonPrefix, UpOrDown, Reduced, NamesOk;
    var common := CommonPrefix(spec, output);
    assert common > 0;
    TailUpOrDown(spec, common);
    TailUpOrDown(output, common);
    JoinAt(spec, common);
    JoinAt(output, common);
  }

  lemma TailUpOrDown(p: Path, n: nat)
    requires Resolved(p) && 0 < n <= |p|
    ensures UpOrDown(p[n..])
  {
    assert forall i :: 0 <= i < |p| - n ==> p[n..][i] == p[n + i] && !p[n + i].CurDir? && !p[n + i].RootDir?;
  }

  lemma JoinAt<T>(s: seq<T>, n: nat)
    requires n <= |s|
    ensures s == s[..n] + s[n..]
  {}

  lemma PartsReadBack(spec: Path, output: Path)
    requires Resolved(spec) && Resolved(output) && RelativeParts(spec, output) != []
    ensures var p := RelativeParts(spec, output);
            var url := GuardUriSchemeAmbiguity(Join(Texts(p), '/'));
            && RelativeUrlSpec(spec, output) == Ok(url) && IsRelative(url)
            && (Components(url) == p || Components(url) == [CurDir] + p)
  {
    hide Components, GuardUriSchemeAmbiguity, Join, Texts, FirstSegment, CommonPrefix;
    PathsSplit(spec, output);
    UrlReadsBack(RelativeParts(spec, output));
  }

  /** The climb, then the descent. */
  lemma UrlFollowed(spec: Path, output: Path) returns (m: nat)
    requires Resolved(spec) && Resolved(output) && RelativeParts(spec, output) != []
    ensures RelativeUrlSpec(spec, output).Ok? && IsRelative(RelativeUrlSpec(spec, output).value)
    ensures var common := CommonPrefix(spec, output);
            && Follow(output, RelativeUrlSpec(spec, output).value) == spec[..common] + Parents(m) + spec[common..]
            && (m == 0 <==> ParentDir !in output[common..])
            && (m > 0 ==> common > 0 && !spec[common - 1].Normal?)
  {
    var common := CommonPrefix(spec, output);
    var base, tail, rest := spec[..common], output[common..], spec[common..];
    var p := RelativeParts(spec, output);
    PathsSplit(spec, output);
    PartsReadBack(spec, output);
    var url := GuardUriSchemeAmbiguity(Join(Texts(p), '/'));
    hide Components, GuardUriSchemeAmbiguity, Join, Texts, FirstSegment, IsRelative, Normalize, NormFrom;
    FollowParts(output, p, Components(url));
    NormAppend(output, Parents(|tail|), rest);
    m := Climb(base, tail);
    DescendBack(base, m, rest);
  }

  // ----- Resolution -----

  function Absolute(path: Path, cwd: Path): Path {
    if path != [] && path[0].RootDir? then path else cwd + path
  }

  /** Absolute, then canonical when the path exists, and lexically normalised otherwise. */
  function Resolve(path: Path, cwd: Path, canonical: Path -> Option<Path>): Path {
    match canonical(Absolute(path, cwd))
    case Some(p) => p
    case None => Normalize(Absolute(path, cwd))
  }

  method ResolvePath(path: Path, cwd: Path, canonical: Path -> Option<Path>) returns (resolved: Path)
    ensures resolved == Resolve(path, cwd, canonical)
  {
    var absolute := path;
    if !(path != [] && path[0].RootDir?) {
      absolute := cwd + path;
    }
    match canonical(absolute) {
      case Some(p) => resolved := p;
      case None => resolved := NormalizeLexically(absolute);
    }
  }

  /** `relative_document_url`: the document is given as text, the directory as a path. */
  method RelativeDocumentUrl(document: string, output: Path, cwd: Path, canonical: Path -> Option<Path>)
    returns (r: Result<string, PathError>)
    ensures r == RelativeUrlSpec(Resolve(Components(document), cwd, canonical), Resolve(output, cwd, canonical))
  {
    hide RelativeUrlSpec, Components, Resolve;
    var spec := ResolvePath(Components(document), cwd, canonical);
    var directory := ResolvePath(output, cwd, canonical);
    r := RelativeUrl(spec, directory);
  }

  /** Canonical paths are a root and names. */
  predicate IsCanonical(p: Path) {
    p != [] && p[0].RootDir? && NamesOk(p) && forall i :: 0 < i < |p| ==> p[i].Normal?
  }

  /** Only a leading component can be the root. */
  predicate Parsed(p: Path) {
    NamesOk(p) && forall i :: 0 < i < |p| ==> !p[i].RootDir?
  }

  lemma {:induction false} NormFromRoot(out: Path, p: Path)
    requires Resolved(out) && NamesOk(p) && forall i :: 0 <= i < |p| ==> !p[i].RootDir?
    ensures Resolved(NormFrom(out, p))
    decreases |p|
  {
    if p != [] {
      NormFromRoot(NormStep(out, p[0]), p[1..]);
    }
  }

  /** A directory from which relative paths are read. */
  predicate IsAbsolute(p: Path) {
    Parsed(p) && p != [] && p[0].RootDir?
  }

  /**
   * `place` says where the file system finds an absolute path, links included. What exists has a canonical
   * path, which leads to that place; what does not exist has no place but the one its components spell.
   */
  ghost predicate Locates(canonical: Path -> Option<Path>, place: Path -> Place) {
    forall q {:trigger canonical(q)} ::
      match canonical(q)
      case Some(p) => IsCanonical(p) && Walk([], p) == place(q)
      case None => Walk([], q) == place(q)
  }

  /** Every resolved input meets what `UrlLeadsBack` asks for. */
  lemma ResolveResolves(path: Path, cwd: Path, canonical: Path -> Option<Path>)
    requires Parsed(path) && IsAbsolute(cwd)
    requires forall q {:trigger canonical(q)} :: canonical(q).Some? ==> IsCanonical(canonical(q).value)
    ensures Resolved(Resolve(path, cwd, canonical))
    ensures canonical(Absolute(path, cwd)).Some? ==> ParentDir !in Resolve(path, cwd, canonical)
  {
    var absolute := Absolute(path, cwd);
    if canonical(absolute).None? {
      assert [] + [absolute[0]] == [RootDir];
      assert Normalize(absolute) == NormFrom([RootDir], absolute[1..]);
      NormFromRoot([RootDir], absolute[1..]);
    }
  }

  /** A path read in a directory names what its components lead to from there, and from anywhere if it is absolute. */
  lemma AbsoluteNames(path: Path, cwd: Path)
    ensures Walk([], Absolute(path, cwd)) == Walk(Walk([], cwd), path)
  {
    WalkAppend([], cwd, path);
  }

  /** Resolving a path does not change what it names. */
  lemma ResolveNames(path: Path, cwd: Path, canonical: Path -> Option<Path>, place: Path -> Place)
    requires Locates(canonical, place)
    ensures Walk([], Resolve(path, cwd, canonical)) == place(Absolute(path, cwd))
    ensures (forall q :: place(q) == Walk([], q)) ==>
              Walk([], Resolve(path, cwd, canonical)) == Walk(Walk([], cwd), path)
  {
    hide Walk, Normalize, Absolute;
    NormalizeNames([], Absolute(path, cwd));
    AbsoluteNames(path, cwd);
  }

  lemma {:induction false} SegmentsParsed(parts: seq<string>, first: bool)
    requires Free(parts, '/')
    ensures NamesOk(SegmentComponents(parts, first)) && RootDir !in SegmentComponents(parts, first)
  {
    if parts != [] {
      assert forall i :: 0 <= i < |parts| - 1 ==> parts[1..][i] == parts[i + 1];
      SegmentsParsed(parts[1..], false);
      hide Free;
      assert NamesOk(SegmentComponent(parts[0], first)) && RootDir !in SegmentComponent(parts[0], first);
    }
  }

  lemma ComponentsParsed(s: string)
    ensures Parsed(Components(s))
  {
    hide Split, Join, SegmentComponents;
    var text := if "/" <= s then s[1..] else s;
    JoinSplit(text, '/');
    SegmentsParsed(Split(text, '/'), !("/" <= s));
  }

  /**
   * From the arguments to the file: the URL is refused only when the document is the output directory
   * itself, and following it from where the system finds that directory reaches the document.
   */
  lemma DocumentUrlLeadsBack(document: string, output: Path, cwd: Path, canonical: Path -> Option<Path>,
                             place: Path -> Place)
    requires Parsed(output) && IsAbsolute(cwd) && Locates(canonical, place)
    ensures var spec, directory := Resolve(Components(document), cwd, canonical), Resolve(output, cwd, canonical);
            var r := RelativeUrlSpec(spec, directory);
            && (r.Err? <==> spec == directory) && (r.Err? ==> r.error == SameDirectory)
            && (r.Ok? ==>
                 var from, to := place(Absolute(output, cwd)), place(Absolute(Components(document), cwd));
                 IsRelative(r.value) && Walk(from, Components(r.value)) == to)
  {
    hide Walk, Components, RelativeUrlSpec, Resolve, Resolved, IsRelative, Parsed, Absolute;
    var path := Components(document);
    ComponentsParsed(document);
    ResolveResolves(path, cwd, canonical);
    ResolveResolves(output, cwd, canonical);
    ResolveNames(path, cwd, canonical, place);
    ResolveNames(output, cwd, canonical, place);
    UrlLeadsBack(Resolve(path, cwd, canonical), Resolve(output, cwd, canonical));
  }

  /** Where nothing is a link: from the directory the output path names to what the document's text names. */
  lemma DocumentUrlFollowed(document: string, output: Path, cwd: Path, canonical: Path -> Option<Path>)
    requires Parsed(output) && IsAbsolute(cwd) && Locates(canonical, q => Walk([], q))
    ensures var r := RelativeUrlSpec(Resolve(Components(document), cwd, canonical), Resolve(output, cwd, canonical));
            var here := Walk([], cwd);
            r.Ok? ==> Walk(Walk(here, output), Components(r.value)) == Walk(here, Components(document))
  {
    hide Walk, Components, RelativeUrlSpec, Resolve, Parsed, Absolute;
    DocumentUrlLeadsBack(document, output, cwd, canonical, q => Walk([], q));
    AbsoluteNames(Components(document), cwd);
    AbsoluteNames(output, cwd);
  }

  // ----- No shorter way -----

  lemma {:induction false} CommonAtLeast<T>(a: seq<T>, b: seq<T>, n: nat)
    requires n <= |a| && n <= |b| && a[..n] == b[..n]
    ensures CommonPrefix(a, b) >= n
  {
    if n > 0 {
      assert a[0] == a[..n][0] && b[0] == b[..n][0];
      assert a[1..][..n - 1] == a[..n][1..] && b[1..][..n - 1] == b[..n][1..];
      CommonAtLeast(a[1..], b[1..], n - 1);
    }
  }

  /** How many directories lie between two places. */
  ghost function Distance(a: Place, b: Place): nat {
    |a| + |b| - 2 * CommonPrefix(a, b)
  }

  lemma OneStepCloser(at: Place, c: Component, to: Place)
    requires !c.RootDir?
    ensures Distance(at, to) <= Distance(WalkStep(at, c), to) + 1
  {
    var next := WalkStep(at, c);
    var m := CommonPrefix(next, to);
    match c {
      case ParentDir =>
        assert at[..m] == next[..m];
        CommonAtLeast(at, to, m);
      case Normal(_) =>
        var n := if m > 0 then m - 1 else 0;
        assert at[..n] == next[..m][..n] == to[..n];
        CommonAtLeast(at, to, n);
      case CurDir =>
    }
  }

  lemma {:induction false} WalksAreLong(at: Place, p: Path)
    requires RootDir !in p
    ensures |p| >= Distance(at, Walk(at, p))
    decreases |p|
  {
    hide Distance;
    if p == [] {
      SamePlace(at);
    } else {
      WalksAreLong(WalkStep(at, p[0]), p[1..]);
      OneStepCloser(at, p[0], Walk(at, p));
    }
  }

  lemma SamePlace(at: Place)
    ensures Distance(at, at) == 0
  {}

  /** The names behind the root are the place of a canonical path. */
  lemma {:induction false} CanonicalPlace(p: Path)
    requires IsCanonical(p)
    ensures |Walk([], p)| == |p| - 1 && forall i :: 0 < i < |p| ==> p[i] == Normal(Walk([], p)[i - 1])
    decreases |p|
  {
    var n := |p| - 1;
    assert p == p[..n] + [p[n]];
    WalkLast([], p[..n], p[n]);
    if n > 0 {
      CanonicalPlace(p[..n]);
    }
  }

  /** The URL of canonical paths has no more components than any path that leads from the one to the other. */
  lemma UrlIsShortest(spec: Path, output: Path, p: Path)
    requires IsCanonical(spec) && IsCanonical(output) && RootDir !in p
    requires Walk(Walk([], output), p) == Walk([], spec)
    ensures |RelativeParts(spec, output)| <= |p|
    ensures var r, parts := RelativeUrlSpec(spec, output), RelativeParts(spec, output);
            r.Ok? ==> Components(r.value) == parts || Components(r.value) == [CurDir] + parts
  {
    hide Walk, Components;
    PartsAreShortest(spec, output, p);
    if RelativeUrlSpec(spec, output).Ok? {
      PartsReadBack(spec, output);
    }
  }

  lemma PartsAreShortest(spec: Path, output: Path, p: Path)
    requires IsCanonical(spec) && IsCanonical(output) && RootDir !in p
    requires Walk(Walk([], output), p) == Walk([], spec)
    ensures |RelativeParts(spec, output)| <= |p|
  {
    hide Walk;
    var a, b := Walk([], output), Walk([], spec);
    WalksAreLong(a, p);
    CanonicalPlace(spec);
    CanonicalPlace(output);
    var m := CommonPrefix(a, b);
    assert forall i :: 0 <= i < m ==> a[i] == a[..m][i] == b[..m][i] == b[i];
    assert spec[..m + 1] == output[..m + 1];
    CommonAtLeast(spec, output, m + 1);
  }

  /** The program's own case, where both paths exist: the URL also normalises back to the document's path. */
  lemma CanonicalUrlLeadsBack(spec: Path, output: Path)
    requires IsCanonical(spec) && IsCanonical(output) && spec != output
    ensures RelativeUrlSpec(spec, output).Ok? && Follow(output, RelativeUrlSpec(spec, output).value) == spec
  {
    UrlLeadsBack(spec, output);
    UrlNormalizesBack(spec, output);
  }
}
