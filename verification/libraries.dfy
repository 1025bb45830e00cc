/** The library record of the component macros (mu_macro/src/lib.rs): what a
    declaration names, what it requires, and the children resolved so far. */
module Libraries {
  import opened Outcomes
  import opened Text

  /** `Library`: `instance` is the opaque path of the chosen implementation,
      `required` the interface names it needs, `resolved` the child libraries
      found for them so far. */
  datatype Library = Library(name: string, instance: string, required: seq<string>, resolved: seq<Library>)

  /** `Component`: the component type and the interfaces it asks for. */
  datatype Component = Component(name: string, libraryList: seq<string>)

  /** The macros' `impl_map`: libraries keyed by lower-cased name. */
  type Table = map<string, Library>

  const EmptyListError := "expected identifier"

  /** The record a `Name=Path` or `Name=Path<A, B>` declaration parses to;
      `generics` is the bracketed list when there is one. */
  function FromDeclaration(name: string, instance: string, generics: Option<seq<string>>): (r: Result<Library, string>)
    ensures r.Ok? <==> (generics.None? || generics.value != [])
    ensures r.Ok? ==> r.value.name == name && r.value.instance == instance && r.value.resolved == []
    ensures r.Ok? && generics.None? ==> r.value.required == []
    ensures r.Ok? && generics.Some? ==> r.value.required == generics.value != []
  {
    match generics
    case None => Ok(Library(name, instance, [], []))
    case Some(list) =>
      if list == [] then Err(EmptyListError) else Ok(Library(name, instance, list, []))
  }

  /** The record a `Name<A, B>;` component header parses to. */
  function ComponentFromDeclaration(name: string, list: seq<string>): (r: Result<Component, string>)
    ensures r.Ok? <==> list != []
    ensures r.Ok? ==> r.value.name == name && r.value.libraryList == list
  {
    if list == [] then Err(EmptyListError) else Ok(Component(name, list))
  }

  /** `is_resolved`. */
  predicate IsResolved(lib: Library)
  {
    |lib.resolved| == |lib.required|
  }

  /** `PartialEq for Library`: name, required and resolved, never instance. */
  predicate Same(a: Library, b: Library)
    decreases a
  {
    && a.name == b.name
    && a.required == b.required
    && |a.resolved| == |b.resolved|
    && forall i :: 0 <= i < |a.resolved| ==> Same(a.resolved[i], b.resolved[i])
  }

  /** The library with every instance path, its own and its children's,
      blanked out: the part of a library that `Same` compares. */
  function Erase(lib: Library): Library
    decreases lib
  {
    Library(lib.name, "", lib.required,
            seq(|lib.resolved|, i requires 0 <= i < |lib.resolved| => Erase(lib.resolved[i])))
  }

  /** `Same` is equality of everything but instance paths. */
  lemma {:induction false} SameIffErased(a: Library, b: Library)
    ensures Same(a, b) <==> Erase(a) == Erase(b)
    decreases a
  {
    forall i | 0 <= i < |a.resolved| && i < |b.resolved|
      ensures Same(a.resolved[i], b.resolved[i]) <==> Erase(a.resolved[i]) == Erase(b.resolved[i])
    {
      SameIffErased(a.resolved[i], b.resolved[i]);
    }
    if Erase(a) == Erase(b) {
      assert |a.resolved| == |Erase(a).resolved| == |Erase(b).resolved| == |b.resolved|;
      forall i | 0 <= i < |a.resolved| ensures Same(a.resolved[i], b.resolved[i]) {
        assert Erase(a).resolved[i] == Erase(b).resolved[i];
      }
    }
  }

  /** Hence `Same` is an equivalence relation, and plain equality implies it. */
  lemma SameIsEquivalence(a: Library, b: Library, c: Library)
    ensures Same(a, a)
    ensures Same(a, b) ==> Same(b, a)
    ensures Same(a, b) && Same(b, c) ==> Same(a, c)
  {
    SameIffErased(a, a);
    SameIffErased(a, b);
    SameIffErased(b, a);
    SameIffErased(b, c);
    SameIffErased(a, c);
  }

  /** Libraries that differ only in their instance path are `Same`. */
  lemma SameIgnoresInstance(a: Library, path: string)
    ensures Same(a, a.(instance := path))
  {
    SameIsEquivalence(a, a, a);
  }

  /** The first required name whose lower-cased form is not a key of `t`. */
  function FirstMissing(required: seq<string>, t: Table): Option<string>
  {
    if required == [] then None
    else if Lower(required[0]) !in t then Some(required[0])
    else FirstMissing(required[1..], t)
  }

  /** The children `resolve` pushes while walking `required` against `t`:
      the entry of each name whose entry is resolved, in order, up to the
      first name that has no entry. */
  function Pushed(required: seq<string>, t: Table): seq<Library>
  {
    if required == [] || Lower(required[0]) !in t then []
    else
      var lib := t[Lower(required[0])];
      (if IsResolved(lib) then [lib] else []) + Pushed(required[1..], t)
  }

  /** Every requirement has a resolved entry in `t`. */
  predicate Ready(required: seq<string>, t: Table)
  {
    forall i :: 0 <= i < |required| ==> Lower(required[i]) in t && IsResolved(t[Lower(required[i])])
  }

  /** The entries of all requirements, in order. */
  function Lookups(required: seq<string>, t: Table): (r: seq<Library>)
    requires forall i :: 0 <= i < |required| ==> Lower(required[i]) in t
    ensures |r| == |required|
    ensures forall i :: 0 <= i < |required| ==> r[i] == t[Lower(required[i])]
  {
    seq(|required|, i requires 0 <= i < |required| => t[Lower(required[i])])
  }

  /** Walking a concatenation: once the first part has no missing name, the
      walk goes on into the second. */
  lemma {:induction false} WalkConcat(s: seq<string>, s': seq<string>, t: Table)
    requires FirstMissing(s, t) == None
    ensures FirstMissing(s + s', t) == FirstMissing(s', t)
    ensures Pushed(s + s', t) == Pushed(s, t) + Pushed(s', t)
  {
    if s != [] {
      assert (s + s')[1..] == s[1..] + s';
      WalkConcat(s[1..], s', t);
    } else {
      assert s + s' == s';
    }
  }

  /** `FirstMissing` finds a missing name exactly when one exists, and the
      one it finds is required and has no entry. */
  lemma {:induction false} FirstMissingSound(required: seq<string>, t: Table)
    ensures FirstMissing(required, t) == None <==> forall r :: r in required ==> Lower(r) in t
    ensures FirstMissing(required, t).Some? ==>
      FirstMissing(required, t).value in required && Lower(FirstMissing(required, t).value) !in t
  {
    if required != [] {
      FirstMissingSound(required[1..], t);
      assert forall r :: r in required ==> r == required[0] || r in required[1..];
    }
  }

  /** What `resolve` pushes: at most one child per requirement, each a
      resolved entry of the table found under a required name. */
  lemma {:induction false} PushedFromTable(required: seq<string>, t: Table)
    ensures |Pushed(required, t)| <= |required|
    ensures forall x :: x in Pushed(required, t) ==>
      IsResolved(x) && exists r :: r in required && Lower(r) in t && t[Lower(r)] == x
  {
    if required != [] && Lower(required[0]) in t {
      PushedFromTable(required[1..], t);
      forall x | x in Pushed(required, t)
        ensures IsResolved(x) && exists r :: r in required && Lower(r) in t && t[Lower(r)] == x
      {
        if x !in Pushed(required[1..], t) {
          assert x == t[Lower(required[0])];
        } else {
          var r :| r in required[1..] && Lower(r) in t && t[Lower(r)] == x;
          assert r in required;
        }
      }
    }
  }

  /** When every requirement has a resolved entry, `resolve` pushes exactly
      those entries, in `required` order, and nothing is missing. */
  lemma {:induction false} PushedWhenReady(required: seq<string>, t: Table)
    requires Ready(required, t)
    ensures FirstMissing(required, t) == None
    ensures Pushed(required, t) == Lookups(required, t)
  {
    if required != [] {
      assert Ready(required[1..], t) by {
        forall i | 0 <= i < |required[1..]|
          ensures Lower(required[1..][i]) in t && IsResolved(t[Lower(required[1..][i])])
        {
          assert required[1..][i] == required[i + 1];
        }
      }
      PushedWhenReady(required[1..], t);
      assert Lookups(required, t) == [t[Lower(required[0])]] + Lookups(required[1..], t);
    }
  }

  /** One step of the walk: the name at position i, after a prefix with no
      missing name, either extends the walk or stops it. */
  lemma WalkStep(required: seq<string>, i: nat, t: Table)
    requires i < |required| && FirstMissing(required[..i], t) == None
    ensures Lower(required[i]) in t ==>
      && FirstMissing(required[..i + 1], t) == None
      && Pushed(required[..i + 1], t) ==
           Pushed(required[..i], t) + (if IsResolved(t[Lower(required[i])]) then [t[Lower(required[i])]] else [])
    ensures Lower(required[i]) !in t ==>
      && FirstMissing(required, t) == Some(required[i])
      && Pushed(required, t) == Pushed(required[..i], t)
  {
    var name := required[i];
    WalkConcat(required[..i], [name], t);
    assert required[..i + 1] == required[..i] + [name];
    WalkConcat(required[..i], required[i..], t);
    assert required[..i] + required[i..] == required;
    assert required[i..][1..] == required[i + 1..];
  }

  /** `Library::resolve`: walks `required` in order, pushing a copy of every
      entry that is already resolved; a name with no entry stops the walk
      with that name, and what was pushed before it stays. */
  method ResolveLibrary(lib: Library, t: Table) returns (lib': Library, missing: Option<string>)
    ensures missing == FirstMissing(lib.required, t)
    ensures lib' == lib.(resolved := lib.resolved + Pushed(lib.required, t))
  {
    lib' := lib;
    var i := 0;
    while i < |lib.required|
      invariant 0 <= i <= |lib.required|
      invariant FirstMissing(lib.required[..i], t) == None
      invariant lib' == lib.(resolved := lib.resolved + Pushed(lib.required[..i], t))
    {
      var key := Lower(lib.required[i]);
      WalkStep(lib.required, i, t);
      if key in t {
        if IsResolved(t[key]) {
          lib' := lib'.(resolved := lib'.resolved + [t[key]]);
        }
      } else {
        missing := Some(lib.required[i]);
        return;
      }
      i := i + 1;
    }
    assert lib.required[..i] == lib.required;
    missing := None;
  }

  /** A library that requires nothing is left as it is by `resolve`, so a
      leaf stays resolved. */
  lemma LeafUnchanged(lib: Library, t: Table)
    requires lib.required == []
    ensures FirstMissing(lib.required, t) == None
    ensures lib.(resolved := lib.resolved + Pushed(lib.required, t)) == lib
  {
    assert lib.resolved + [] == lib.resolved;
  }

  /** `resolve` does not check `is_resolved` first: on a resolved library
      whose requirements are all resolved in the table it pushes a second
      copy of every child, and the library is no longer resolved. */
  lemma ResolveOvershoots(lib: Library, t: Table)
    requires IsResolved(lib) && lib.required != []
    requires Ready(lib.required, t)
    ensures !IsResolved(lib.(resolved := lib.resolved + Pushed(lib.required, t)))
    ensures |lib.resolved + Pushed(lib.required, t)| == 2 * |lib.required|
  {
    PushedWhenReady(lib.required, t);
  }
}
