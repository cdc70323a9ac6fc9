/** Resolution of `$ref` chains into a document's components. */
module SchemaRefs {
  import opened Options
  import opened Strings

  datatype RefOr<T> = Item(value: T) | Reference(reference: string)

  /** One map of the components section, as `schemas`, `requestBodies` or `responses`. */
  type Components<T> = Option<map<string, RefOr<T>>>

  /** Where one step from a reference leads. */
  function Next<T>(r: RefOr<T>, prefix: string, components: Components<T>): Option<RefOr<T>> {
    match r
    case Item(_) => None
    case Reference(reference) =>
      match StripPrefix(reference, prefix)
      case None => None
      case Some(name) =>
        if components.None? || name !in components.value then None else Some(components.value[name])
  }

  // ----- Specification -----

  /** The item is `n` local references away. */
  ghost predicate Reaches<T>(r: RefOr<T>, prefix: string, components: Components<T>, n: nat, item: T)
    decreases n
  {
    if n == 0 then r == Item(item)
    else
      Next(r, prefix, components).Some?
      && Reaches(Next(r, prefix, components).value, prefix, components, n - 1, item)
  }

  /** References have one target, so chains from one start have one length and one end. */
  lemma {:induction false} ReachesOnce<T>(r: RefOr<T>, prefix: string, components: Components<T>, n: nat, a: T, m: nat,
                                          b: T)
    requires Reaches(r, prefix, components, n, a) && Reaches(r, prefix, components, m, b)
    ensures n == m && a == b
    decreases n
  {
    if n > 0 && m > 0 {
      ReachesOnce(Next(r, prefix, components).value, prefix, components, n - 1, a, m - 1, b);
    }
  }

  ghost function Unvisited<T>(components: Components<T>, visited: set<string>): set<string> {
    if components.None? then {} else components.value.Keys - visited
  }

  /** The recursion of `resolve_*_ref`, with the names already visited. */
  function Resolve<T>(r: RefOr<T>, prefix: string, components: Components<T>, visited: set<string>): Option<T>
    decreases Unvisited(components, visited)
  {
    match r
    case Item(value) => Some(value)
    case Reference(reference) =>
      match StripPrefix(reference, prefix)
      case None => None
      case Some(name) =>
        if name in visited || components.None? || name !in components.value then None
        else
          assert name in Unvisited(components, visited) && name !in Unvisited(components, visited + {name});
          Resolve(components.value[name], prefix, components, visited + {name})
  }

  /** Names visited on the way to the item lie further from it than `n`. */
  ghost predicate Behind<T>(visited: set<string>, prefix: string, components: Components<T>, n: nat, item: T) {
    forall name :: name in visited ==> exists m :: m > n
                                                   && Reaches(Reference(prefix + name), prefix, components, m, item)
  }

  lemma {:induction false} ChainResolves<T>(r: RefOr<T>, prefix: string, components: Components<T>,
                                            visited: set<string>, n: nat, item: T)
    requires Reaches(r, prefix, components, n, item) && Behind(visited, prefix, components, n, item)
    ensures Resolve(r, prefix, components, visited) == Some(item)
    decreases n
  {
    if n > 0 {
      var name := StripPrefix(r.reference, prefix).value;
      assert r.reference == prefix + name;
      if name in visited {
        var m: nat :| m > n && Reaches(Reference(prefix + name), prefix, components, m, item);
        ReachesOnce(r, prefix, components, n, item, m, item);
      }
      assert Behind(visited + {name}, prefix, components, n - 1, item) by {
        assert Reaches(Reference(prefix + name), prefix, components, n, item);
      }
      ChainResolves(components.value[name], prefix, components, visited + {name}, n - 1, item);
    }
  }

  lemma {:induction false} ResolvedIsChain<T>(r: RefOr<T>, prefix: string, components: Components<T>,
                                              visited: set<string>)
    returns (n: nat)
    requires Resolve(r, prefix, components, visited).Some?
    ensures Reaches(r, prefix, components, n, Resolve(r, prefix, components, visited).value)
    decreases Unvisited(components, visited)
  {
    if r.Item? {
      n := 0;
    } else {
      var name := StripPrefix(r.reference, prefix).value;
      assert name in Unvisited(components, visited) && name !in Unvisited(components, visited + {name});
      var rest := ResolvedIsChain(components.value[name], prefix, components, visited + {name});
      n := rest + 1;
    }
  }

  /** Some finite chain of local references leads to the item. */
  ghost predicate Linked<T>(r: RefOr<T>, prefix: string, components: Components<T>, item: T) {
    exists n: nat :: Reaches(r, prefix, components, n, item)
  }

  /** On every component map, also a cyclic one: an item is found iff a finite chain of local references reaches it. */
  lemma ResolveExact<T>(r: RefOr<T>, prefix: string, components: Components<T>, item: T)
    ensures Resolve(r, prefix, components, {}) == Some(item) <==> Linked(r, prefix, components, item)
  {
    if Resolve(r, prefix, components, {}) == Some(item) {
      var n := ResolvedIsChain(r, prefix, components, {});
      assert Reaches(r, prefix, components, n, item);
    }
    if Linked(r, prefix, components, item) {
      var n: nat :| Reaches(r, prefix, components, n, item);
      ChainResolves(r, prefix, components, {}, n, item);
    }
  }

  // ----- `resolve_schema_ref` and its twins -----

  /** The names handed on between the calls of one resolution. */
  class Visited {
    var names: set<string>

    constructor ()
      ensures names == {}
    {
      names := {};
    }

    /** Whether the name was new. */
    method Insert(name: string) returns (added: bool)
      modifies this
      ensures added == (name !in old(names)) && names == old(names) + {name}
    {
      added := name !in names;
      names := names + {name};
    }
  }

  method ResolveRef<T>(r: RefOr<T>, prefix: string, components: Components<T>,
                       visited: Visited)
    returns (found: Option<T>)
    modifies visited
    ensures found == Resolve(r, prefix, components, old(visited.names))
    ensures old(visited.names) <= visited.names
    decreases Unvisited(components, visited.names)
  {
    match r
    case Item(value) => return Some(value);
    case Reference(reference) =>
      var name := StripPrefix(reference, prefix);
      if name.None? {
        return None;
      }
      var added := visited.Insert(name.value);
      if !added {
        return None;
      }
      if components.None? || name.value !in components.value {
        return None;
      }
      assert name.value in Unvisited(components, old(visited.names))
        && name.value !in Unvisited(components, visited.names);
      found := ResolveRef(components.value[name.value], prefix, components, visited);
  }
}
