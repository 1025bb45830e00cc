/** The `component_from_path!` macro (mu_macro/src/from_path.rs): a component
    header followed by the location of a build configuration; the libraries
    are looked up in the configuration under the component's architecture
    and module kind, registered depth-first, then resolved and rendered as
    in the `component!` macro. */
module FromPath {
  import opened Outcomes
  import opened Text
  import opened ConfigTypes
  import opened Libraries
  import opened Rendering
  import opened Resolution

  /** Where the configuration text comes from. */
  datatype Source = File(path: string) | Environment(variable: string)

  const KeywordError := "Expected 'Path' or 'Env' keyword"

  /** The keyword after the component header: `path`/`Path` names a file,
      `env`/`Env` an environment variable holding the file's name; any other
      token is rejected. */
  function ConfigSource(keyword: string, literal: string): (r: Result<Source, string>)
    ensures r.Ok? <==> keyword in {"path", "Path", "env", "Env"}
    ensures keyword in {"path", "Path"} ==> r == Ok(File(literal))
    ensures keyword in {"env", "Env"} ==> r == Ok(Environment(literal))
    ensures r.Err? ==> r.error == KeywordError
  {
    if keyword == "path" || keyword == "Path" then Ok(File(literal))
    else if keyword == "env" || keyword == "Env" then Ok(Environment(literal))
    else Err(KeywordError)
  }

  /** The architecture and module kind a component is built for. */
  datatype Scope = Scope(arch: Architecture, moduleKind: Module)

  /** A library instance the configuration names: the interface name, the
      implementation path, and the bracketed requirement list when the path
      carries one. */
  datatype LibraryInstance = LibraryInstance(name: string, path: string, generics: Option<seq<string>>)

  /** The two lookups the macro makes in the configuration: the scope of a
      component by lower-cased name, and a library instance by lower-cased
      name within a scope. */
  datatype PathConfig = PathConfig(
    components: map<string, Scope>,
    libraries: map<(string, Scope), LibraryInstance>)

  /** The library record `Name=Path` parses to. */
  function ToLibrary(e: LibraryInstance): (r: Result<Library, string>)
    ensures r.Ok? ==> r.value.name == e.name && r.value.resolved == []
  {
    FromDeclaration(e.name, e.path, e.generics)
  }

  /** Every key registration can file a library under. */
  function Universe(config: PathConfig): set<string>
  {
    set k | k in config.libraries :: Lower(config.libraries[k].name)
  }

  /** Requirement `r` names an instance in the scope, and that instance has
      an entry in `m`. */
  predicate Found(config: PathConfig, scope: Scope, m: Table, r: string)
  {
    (Lower(r), scope) in config.libraries && Lower(config.libraries[(Lower(r), scope)].name) in m
  }

  /** Entry `k` has every requirement registered. */
  predicate RegisteredAt(config: PathConfig, scope: Scope, m: Table, k: string)
  {
    k in m ==> forall r :: r in m[k].required ==> Found(config, scope, m, r)
  }

  /** Every entry outside `base` has its requirements registered. */
  predicate Closed(config: PathConfig, scope: Scope, m: Table, base: set<string>)
  {
    forall k {:trigger RegisteredAt(config, scope, m, k)} :: k in m && k !in base ==> RegisteredAt(config, scope, m, k)
  }

  /** `m'` keeps every entry of `m`. */
  predicate Keeps(m: Table, m': Table)
  {
    forall k :: k in m ==> k in m' && m'[k] == m[k]
  }

  /** Registration only adds entries, so a requirement found stays found. */
  lemma FoundPrefixGrows(config: PathConfig, scope: Scope, required: seq<string>, i: nat, m: Table, m': Table)
    requires i < |required| && Keeps(m, m')
    requires forall j :: 0 <= j < i ==> Found(config, scope, m, required[j])
    requires Found(config, scope, m', required[i])
    ensures forall j :: 0 <= j <= i ==> Found(config, scope, m', required[j])
  {
    forall j | 0 <= j < i ensures Found(config, scope, m', required[j]) {
      assert Found(config, scope, m, required[j]);
    }
  }

  /** Registration only adds entries, so an instance registered stays
      registered. */
  lemma RegisteredPrefixGrows(list: seq<LibraryInstance>, i: nat, m: Table, m': Table)
    requires i < |list| && Keeps(m, m')
    requires forall j :: 0 <= j < i ==> Lower(list[j].name) in m
    requires Lower(list[i].name) in m'
    ensures forall j :: 0 <= j <= i ==> Lower(list[j].name) in m'
  {
  }

  /** `lib` is what some instance the configuration holds for `scope`
      parses to. */
  ghost predicate Parsed(config: PathConfig, scope: Scope, lib: Library)
  {
    exists r :: (r, scope) in config.libraries && ToLibrary(config.libraries[(r, scope)]) == Ok(lib)
  }

  /** Entry `k` is filed under its own lower-cased name and is a parsed
      instance of the configuration. */
  ghost predicate ParsedAt(config: PathConfig, scope: Scope, m: Table, k: string)
  {
    k in m ==> k == Lower(m[k].name) && Parsed(config, scope, m[k])
  }

  /** Every entry outside `base` comes from the configuration. */
  ghost predicate FromConfig(config: PathConfig, scope: Scope, m: Table, base: set<string>)
  {
    forall k {:trigger ParsedAt(config, scope, m, k)} :: k in m && k !in base ==> ParsedAt(config, scope, m, k)
  }

  /** A registration that kept `mid` and filed only parsed instances beyond
      it, with `lib` under its own key, keeps the table's entries outside
      `base` parsed instances. */
  lemma FromConfigGrows(config: PathConfig, scope: Scope, base: set<string>, mid: Table, m: Table, lib: Library)
    requires FromConfig(config, scope, mid, base) && Keeps(mid, m)
    requires FromConfig(config, scope, m, mid.Keys + {Lower(lib.name)})
    requires Lower(lib.name) !in mid ==> Lower(lib.name) in m && m[Lower(lib.name)] == lib && Parsed(config, scope, lib)
    ensures FromConfig(config, scope, m, base)
  {
    forall k | k in m && k !in base ensures ParsedAt(config, scope, m, k) {
      if k in mid {
        assert ParsedAt(config, scope, mid, k);
      } else if k == Lower(lib.name) {
      } else {
        assert ParsedAt(config, scope, m, k);
      }
    }
  }

  /** Registering from `mid` on keeps every entry outside `base` with its
      requirements registered. */
  lemma ClosedGrows(config: PathConfig, scope: Scope, base: set<string>, mid: Table, m: Table)
    requires Closed(config, scope, mid, base) && Keeps(mid, m) && Closed(config, scope, m, mid.Keys)
    ensures Closed(config, scope, m, base)
  {
    forall k | k in m && k !in base ensures RegisteredAt(config, scope, m, k) {
      if k in mid {
        assert RegisteredAt(config, scope, mid, k);
      }
    }
  }

  /** A requirement of entry `j` names an instance of the scope filed under
      key `k`. */
  ghost predicate Feeds(config: PathConfig, scope: Scope, m: Table, j: string, k: string)
  {
    j in m &&
    exists r :: r in m[j].required &&
      (Lower(r), scope) in config.libraries && Lower(config.libraries[(Lower(r), scope)].name) == k
  }

  /** Key `k` is a root, or a requirement of an entry listed in `prefix`
      leads to it. */
  ghost predicate Covered(config: PathConfig, scope: Scope, m: Table, roots: set<string>, prefix: seq<string>, k: string)
  {
    k in roots || exists p :: 0 <= p < |prefix| && Feeds(config, scope, m, prefix[p], k)
  }

  /** Each key of `order` is a root or is led to by a key listed before it:
      the order in which registration reached the keys from `roots`. */
  ghost predicate Reached(config: PathConfig, scope: Scope, m: Table, roots: set<string>, order: seq<string>)
  {
    forall i {:trigger order[i]} :: 0 <= i < |order| ==> Covered(config, scope, m, roots, order[..i], order[i])
  }

  /** `order` lists exactly the keys `after` holds beyond `before`. */
  ghost predicate Lists(order: seq<string>, before: Table, after: Table)
  {
    forall k :: k in order <==> k in after && k !in before
  }

  /** Keeping every entry keeps every requirement link, so a reached order
      stays reached. */
  lemma ReachedGrows(config: PathConfig, scope: Scope, mid: Table, m: Table, roots: set<string>, order: seq<string>)
    requires Keeps(mid, m) && Reached(config, scope, mid, roots, order)
    ensures Reached(config, scope, m, roots, order)
  {
    forall i | 0 <= i < |order| ensures Covered(config, scope, m, roots, order[..i], order[i]) {
      assert Covered(config, scope, mid, roots, order[..i], order[i]);
      if order[i] !in roots {
        var p :| 0 <= p < i && Feeds(config, scope, mid, order[..i][p], order[i]);
        var r :| r in mid[order[..i][p]].required &&
          (Lower(r), scope) in config.libraries && Lower(config.libraries[(Lower(r), scope)].name) == order[i];
        assert Feeds(config, scope, m, order[..i][p], order[i]);
      }
    }
  }

  /** Appending an order whose roots are covered by `a` keeps the whole
      reached from `roots`. */
  lemma ReachedAppend(config: PathConfig, scope: Scope, m: Table, roots: set<string>, a: seq<string>, rootsB: set<string>, b: seq<string>)
    requires Reached(config, scope, m, roots, a) && Reached(config, scope, m, rootsB, b)
    requires forall x :: x in rootsB ==> Covered(config, scope, m, roots, a, x)
    ensures Reached(config, scope, m, roots, a + b)
  {
    var s := a + b;
    forall i | 0 <= i < |s| ensures Covered(config, scope, m, roots, s[..i], s[i]) {
      if i < |a| {
        assert s[..i] == a[..i];
        assert s[i] == a[i];
        assert Covered(config, scope, m, roots, a[..i], a[i]);
      } else {
        var j := i - |a|;
        assert s[i] == b[j];
        assert Covered(config, scope, m, rootsB, b[..j], b[j]);
        if b[j] in rootsB {
          assert Covered(config, scope, m, roots, a, b[j]);
          if b[j] !in roots {
            var p :| 0 <= p < |a| && Feeds(config, scope, m, a[p], b[j]);
            assert s[..i][p] == a[p];
          }
        } else {
          var p :| 0 <= p < j && Feeds(config, scope, m, b[..j][p], b[j]);
          assert s[..i][|a| + p] == b[..j][p];
        }
      }
    }
  }

  /** Orders of consecutive registrations list the keys of the whole. */
  lemma ListsAppend(a: seq<string>, b: seq<string>, m0: Table, m1: Table, m2: Table)
    requires Lists(a, m0, m1) && Lists(b, m1, m2) && Keeps(m0, m1) && Keeps(m1, m2)
    ensures Lists(a + b, m0, m2)
  {
  }

  /** The order of a registration made for requirement `r` of the first
      key of `order` extends it: together they list the new keys, each
      reached from that first key. */
  lemma OrderGrows(config: PathConfig, scope: Scope, before: Table, mid: Table, m: Table,
                   order: seq<string>, more: seq<string>, r: string)
    requires |order| > 0 && order[0] in mid && r in mid[order[0]].required && (Lower(r), scope) in config.libraries
    requires Keeps(before, mid) && Keeps(mid, m)
    requires Lists(order, before, mid) && Reached(config, scope, mid, {order[0]}, order)
    requires Lists(more, mid, m)
    requires Reached(config, scope, m, {Lower(config.libraries[(Lower(r), scope)].name)}, more)
    ensures Lists(order + more, before, m)
    ensures Reached(config, scope, m, {order[0]}, order + more)
  {
    var t := Lower(config.libraries[(Lower(r), scope)].name);
    ReachedGrows(config, scope, mid, m, {order[0]}, order);
    assert Feeds(config, scope, m, order[0], t);
    assert Covered(config, scope, m, {order[0]}, order, t);
    ReachedAppend(config, scope, m, {order[0]}, order, {t}, more);
    ListsAppend(order, more, before, mid, m);
  }

  /** Some registered entry lists `n` among its requirements. */
  ghost predicate RequiredBy(m: Table, n: string)
  {
    exists k :: k in m && n in m[k].required
  }

  /** Name `r` has an instance in the scope, named `n`, whose requirement
      list does not parse. */
  predicate BadInstance(config: PathConfig, scope: Scope, r: string, n: string)
  {
    (Lower(r), scope) in config.libraries &&
    ToLibrary(config.libraries[(Lower(r), scope)]).Err? &&
    config.libraries[(Lower(r), scope)].name == n
  }

  /** Every requirement of `lib` has an instance in the scope. */
  predicate RequirementsInScope(config: PathConfig, scope: Scope, lib: Library)
  {
    forall r :: r in lib.required ==> (Lower(r), scope) in config.libraries
  }

  /** The configuration is complete for the scope: each of its instances
      parses and each requirement of one has an instance in the scope. */
  ghost predicate Sound(config: PathConfig, scope: Scope)
  {
    forall k :: k in config.libraries && k.1 == scope ==>
      ToLibrary(config.libraries[k]).Ok? &&
      RequirementsInScope(config, scope, ToLibrary(config.libraries[k]).value)
  }

  /** The keys the requested names' instances in the scope are filed under. */
  function RequestedKeys(config: PathConfig, scope: Scope, names: seq<string>): set<string>
  {
    set n | n in names && (Lower(n), scope) in config.libraries :: Lower(config.libraries[(Lower(n), scope)].name)
  }

  lemma SubsetNoLarger(a: set<string>, b: set<string>)
    requires a <= b
    ensures |a| <= |b|
  {
    assert b == a + (b - a);
    assert a * (b - a) == {};
  }

  /** Registering a new key of the universe shrinks what is left of it. */
  lemma LeftShrinks(u: set<string>, before: set<string>, after: set<string>, key: string)
    requires before + {key} <= after && key in u && key !in before
    ensures |u - after| < |u - before|
  {
    SubsetNoLarger(u - after, (u - before) - {key});
    assert (u - before) == ((u - before) - {key}) + {key};
  }

  /** Why the expansion fails: no scope for the component, no instance for a
      requested or required name, a requirement list that does not parse, or
      the resolution loop stopping short of `Resolved`. */
  datatype Failure =
    | ComponentNotFound(component: string)
    | LibraryNotFound(name: string)
    | BadDeclaration(name: string)
    | Unresolved(verdict: Verdict)

  /** `PathDescribed`: the parsed component, the configuration it was read
      with, and the table being built. */
  class PathDescribed {
    const component: Component
    const config: PathConfig
    var implMap: Table

    /** The table as registration left it, before the resolution loop. */
    ghost var registered: Table

    /** The keys registration added, in the order it reached them. */
    ghost var registrationOrder: seq<string>

    predicate Valid()
      reads this
    {
      implMap.Keys <= Universe(config)
    }

    /** `Parse for PathDescribed`, once the configuration has been read. */
    constructor (component: Component, config: PathConfig)
      ensures this.component == component && this.config == config
      ensures implMap == map[] && Valid()
    {
      this.component := component;
      this.config := config;
      implMap := map[];
      registered := map[];
      registrationOrder := [];
    }

    /** `register_dependencies`: a name already in the table is skipped, so
        the first registration wins; otherwise the library is filed first
        and each requirement's instance in the same scope is registered in
        turn. Filing before recursing bounds the recursion by the names the
        configuration holds, cyclic requirements included. */
    method RegisterDependencies(library: Library, scope: Scope) returns (failure: Option<Failure>, ghost order: seq<string>)
      requires Valid() && Lower(library.name) in Universe(config)
      modifies this
      decreases |Universe(config) - implMap.Keys|
      ensures Valid()
      ensures Keeps(old(implMap), implMap)
      ensures Lower(library.name) in old(implMap) ==> implMap == old(implMap) && failure.None? && order == []
      ensures Lower(library.name) !in old(implMap) ==>
        Lower(library.name) in implMap && implMap[Lower(library.name)] == library &&
        |order| > 0 && order[0] == Lower(library.name)
      ensures Lists(order, old(implMap), implMap)
      ensures Reached(config, scope, implMap, {Lower(library.name)}, order)
      ensures failure.None? ==> Closed(config, scope, implMap, old(implMap).Keys)
      ensures failure.Some? ==> failure.value.LibraryNotFound? || failure.value.BadDeclaration?
      ensures failure.Some? && failure.value.LibraryNotFound? ==>
        RequiredBy(implMap, failure.value.name) && (Lower(failure.value.name), scope) !in config.libraries
      ensures failure.Some? && failure.value.BadDeclaration? ==>
        exists r :: RequiredBy(implMap, r) && BadInstance(config, scope, r, failure.value.name)
      ensures Sound(config, scope) && RequirementsInScope(config, scope, library) ==> failure.None?
      ensures FromConfig(config, scope, implMap, old(implMap).Keys + {Lower(library.name)})
    {
      var key := Lower(library.name);
      if key in implMap {
        return None, [];
      }
      ghost var before := implMap;
      implMap := implMap[key := library];
      order := [key];
      var i := 0;
      while i < |library.required|
        invariant 0 <= i <= |library.required|
        invariant Valid()
        invariant Keeps(before, implMap) && key in implMap && implMap[key] == library
        invariant before.Keys + {key} <= implMap.Keys
        invariant |order| > 0 && order[0] == key
        invariant Lists(order, before, implMap)
        invariant Reached(config, scope, implMap, {key}, order)
        invariant Closed(config, scope, implMap, before.Keys + {key})
        invariant forall j :: 0 <= j < i ==> Found(config, scope, implMap, library.required[j])
        invariant FromConfig(config, scope, implMap, before.Keys + {key})
      {
        var name := Lower(library.required[i]);
        assert RequiredBy(implMap, library.required[i]) by {
          assert library.required[i] in implMap[key].required;
        }
        if (name, scope) !in config.libraries {
          return Some(LibraryNotFound(library.required[i])), order;
        }
        var entry := config.libraries[(name, scope)];
        var parsed := ToLibrary(entry);
        if parsed.Err? {
          assert BadInstance(config, scope, library.required[i], entry.name);
          return Some(BadDeclaration(entry.name)), order;
        }
        LeftShrinks(Universe(config), before.Keys, implMap.Keys, key);
        ghost var mid := implMap;
        var f, more := RegisterDependencies(parsed.value, scope);
        assert Parsed(config, scope, parsed.value) by {
          assert ToLibrary(config.libraries[(name, scope)]) == Ok(parsed.value);
        }
        FromConfigGrows(config, scope, before.Keys + {key}, mid, implMap, parsed.value);
        OrderGrows(config, scope, before, mid, implMap, order, more, library.required[i]);
        order := order + more;
        if f.Some? {
          return f, order;
        }
        ClosedGrows(config, scope, before.Keys + {key}, mid, implMap);
        assert Found(config, scope, implMap, library.required[i]) by {
          assert Lower(parsed.value.name) in implMap;
        }
        FoundPrefixGrows(config, scope, library.required, i, mid, implMap);
        i := i + 1;
      }
      forall k | k in implMap && k !in before.Keys
        ensures RegisteredAt(config, scope, implMap, k)
      {
        if k == key {
          forall r | r in library.required ensures Found(config, scope, implMap, r) {
            var j :| 0 <= j < |library.required| && library.required[j] == r;
          }
        }
      }
      return None, order;
    }

    /** The `for library in library_list` loop of `resolve`: each requested
        instance is parsed and registered in turn, and the first failure
        ends the loop. */
    method RegisterAll(names: seq<string>, list: seq<LibraryInstance>, scope: Scope)
      returns (failure: Option<Failure>, ghost order: seq<string>)
      requires Valid()
      requires |list| == |names|
      requires forall j :: 0 <= j < |names| ==>
        (Lower(names[j]), scope) in config.libraries && list[j] == config.libraries[(Lower(names[j]), scope)]
      modifies this
      ensures Valid()
      ensures Keeps(old(implMap), implMap)
      ensures FromConfig(config, scope, implMap, old(implMap).Keys)
      ensures Lists(order, old(implMap), implMap)
      ensures Reached(config, scope, implMap, RequestedKeys(config, scope, names), order)
      ensures failure.None? ==> Closed(config, scope, implMap, old(implMap).Keys)
      ensures failure.None? ==> forall j :: 0 <= j < |list| ==> Lower(list[j].name) in implMap
      ensures failure.Some? ==> failure.value.LibraryNotFound? || failure.value.BadDeclaration?
      ensures failure.Some? && failure.value.LibraryNotFound? ==>
        RequiredBy(implMap, failure.value.name) && (Lower(failure.value.name), scope) !in config.libraries
      ensures failure.Some? && failure.value.BadDeclaration? ==>
        exists r :: (r in names || RequiredBy(implMap, r)) && BadInstance(config, scope, r, failure.value.name)
      ensures Sound(config, scope) ==> failure.None?
    {
      ghost var start := implMap;
      ghost var roots := RequestedKeys(config, scope, names);
      order := [];
      var i := 0;
      while i < |list|
        invariant 0 <= i <= |list|
        invariant Valid()
        invariant Keeps(start, implMap)
        invariant Closed(config, scope, implMap, start.Keys)
        invariant FromConfig(config, scope, implMap, start.Keys)
        invariant Lists(order, start, implMap)
        invariant Reached(config, scope, implMap, roots, order)
        invariant forall j :: 0 <= j < i ==> Lower(list[j].name) in implMap
      {
        var parsed := ToLibrary(list[i]);
        if parsed.Err? {
          assert names[i] in names && BadInstance(config, scope, names[i], list[i].name);
          assert !Sound(config, scope) by {
            assert ToLibrary(config.libraries[(Lower(names[i]), scope)]).Err?;
          }
          return Some(BadDeclaration(list[i].name)), order;
        }
        assert Sound(config, scope) ==> RequirementsInScope(config, scope, parsed.value) by {
          assert ToLibrary(config.libraries[(Lower(names[i]), scope)]) == parsed;
        }
        assert Lower(list[i].name) in Universe(config) by {
          assert (Lower(names[i]), scope) in config.libraries;
        }
        assert Lower(list[i].name) in roots;
        ghost var mid := implMap;
        var f, more := RegisterDependencies(parsed.value, scope);
        ReachedGrows(config, scope, mid, implMap, roots, order);
        ReachedAppend(config, scope, implMap, roots, order, {Lower(list[i].name)}, more);
        ListsAppend(order, more, start, mid, implMap);
        order := order + more;
        assert Parsed(config, scope, parsed.value) by {
          assert ToLibrary(config.libraries[(Lower(names[i]), scope)]) == Ok(parsed.value);
        }
        FromConfigGrows(config, scope, start.Keys, mid, implMap, parsed.value);
        if f.Some? {
          assert f.value.BadDeclaration? ==>
            exists r :: (r in names || RequiredBy(implMap, r)) && BadInstance(config, scope, r, f.value.name);
          return f, order;
        }
        ClosedGrows(config, scope, start.Keys, mid, implMap);
        RegisteredPrefixGrows(list, i, mid, implMap);
        i := i + 1;
      }
      return None, order;
    }

    /** `PathDescribed::resolve`: find the component's scope, look up every
        requested library in it, register them in order, then run the
        resolution loop (at most `fuel` passes) on the table. */
    method Resolve(fuel: nat) returns (failure: Option<Failure>)
      requires Valid()
      modifies this
      ensures Valid()
      ensures Lower(component.name) !in config.components <==> failure == Some(ComponentNotFound(component.name))
      ensures failure.Some? && failure.value.LibraryNotFound? ==>
        && Lower(component.name) in config.components
        && (failure.value.name in component.libraryList || RequiredBy(implMap, failure.value.name))
        && (Lower(failure.value.name), config.components[Lower(component.name)]) !in config.libraries
      ensures failure.Some? && failure.value.BadDeclaration? ==>
        && Lower(component.name) in config.components
        && exists r :: (r in component.libraryList || RequiredBy(implMap, r)) &&
             BadInstance(config, config.components[Lower(component.name)], r, failure.value.name)
      ensures
        && Lower(component.name) in config.components
        && Sound(config, config.components[Lower(component.name)])
        && (forall n :: n in component.libraryList ==> (Lower(n), config.components[Lower(component.name)]) in config.libraries)
        ==> failure.None? || failure.value.Unresolved?
      ensures failure.None? || failure.value.Unresolved? ==>
        && Lower(component.name) in config.components
        && Keeps(old(implMap), registered)
        && Closed(config, config.components[Lower(component.name)], registered, old(implMap).Keys)
        && FromConfig(config, config.components[Lower(component.name)], registered, old(implMap).Keys)
        && Lists(registrationOrder, old(implMap), registered)
        && Reached(config, config.components[Lower(component.name)], registered,
             RequestedKeys(config, config.components[Lower(component.name)], component.libraryList), registrationOrder)
        && (forall i :: 0 <= i < |component.libraryList| ==>
              (Lower(component.libraryList[i]), config.components[Lower(component.name)]) in config.libraries &&
              Lower(config.libraries[(Lower(component.libraryList[i]), config.components[Lower(component.name)])].name) in registered)
        && Run(registered, fuel).1 == implMap
      ensures failure.None? <==> (failure.None? || failure.value.Unresolved?) && Run(registered, fuel).0 == Resolved
      ensures failure.Some? && failure.value.Unresolved? ==> failure.value.verdict == Run(registered, fuel).0
      ensures failure.None? ==> AllResolved(implMap)
    {
      var componentName := Lower(component.name);
      if componentName !in config.components {
        return Some(ComponentNotFound(component.name));
      }
      var scope := config.components[componentName];
      var list: seq<LibraryInstance> := [];
      var i := 0;
      while i < |component.libraryList|
        invariant 0 <= i <= |component.libraryList|
        invariant |list| == i
        invariant forall j :: 0 <= j < i ==>
          (Lower(component.libraryList[j]), scope) in config.libraries &&
          list[j] == config.libraries[(Lower(component.libraryList[j]), scope)]
      {
        var name := Lower(component.libraryList[i]);
        if (name, scope) !in config.libraries {
          return Some(LibraryNotFound(component.libraryList[i]));
        }
        list := list + [config.libraries[(name, scope)]];
        i := i + 1;
      }
      var f, order := RegisterAll(component.libraryList, list, scope);
      if f.Some? {
        return f;
      }
      registered := implMap;
      registrationOrder := order;
      var verdict, missing, t := FixedPoint(implMap, fuel);
      RunExtends(registered, fuel);
      implMap := t;
      if verdict != Resolved {
        return Some(Unresolved(verdict));
      }
      RunResolvedMeansAllResolved(registered, fuel);
      return None;
    }

    /** `ToTokens for PathDescribed`. */
    method ToTokens() returns (r: Option<seq<Token>>)
      ensures r == ComponentOutput(component, implMap)
    {
      r := RenderComponent(component, implMap);
    }
  }
}
