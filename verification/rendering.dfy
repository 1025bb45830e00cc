/** The generated type syntax (`to_tokens` in mu_macro/src/lib.rs,
    mu_macro/src/from_macro.rs and mu_macro/src/from_path.rs): a library
    renders as its instance path, followed by `<child, ...>` when it has
    resolved children. */
module Rendering {
  import opened Outcomes
  import opened Text
  import opened Libraries

  /** The tokens of the generated type: an instance path or identifier, and
      the three punctuation marks. */
  datatype Token = Path(text: string) | Lt | Gt | Comma

  /** What a rendering shows of a library: instance paths and the tree of
      resolved children. */
  datatype Tree = Node(instance: string, children: seq<Tree>)

  function Shape(lib: Library): Tree
    decreases lib
  {
    Node(lib.instance, seq(|lib.resolved|, i requires 0 <= i < |lib.resolved| => Shape(lib.resolved[i])))
  }

  /** Token lists separated by commas (`#(#list),*`). */
  function Join(parts: seq<seq<Token>>): seq<Token>
  {
    if parts == [] then []
    else if |parts| == 1 then parts[0]
    else parts[0] + [Comma] + Join(parts[1..])
  }

  /** `ToTokens for Library`. */
  function Render(lib: Library): seq<Token>
    decreases lib, 1
  {
    [Path(lib.instance)] +
    if lib.resolved == [] then [] else [Lt] + Join(RenderChildren(lib)) + [Gt]
  }

  function RenderChildren(lib: Library): (r: seq<seq<Token>>)
    decreases lib, 0
    ensures |r| == |lib.resolved|
  {
    seq(|lib.resolved|, i requires 0 <= i < |lib.resolved| => Render(lib.resolved[i]))
  }

  /** Reads one rendered type off the front of `ts`. */
  function ParseNode(ts: seq<Token>): (r: Option<(Tree, seq<Token>)>)
    ensures r.Some? ==> |r.value.1| < |ts|
    decreases |ts|, 0
  {
    if ts == [] || !ts[0].Path? then None
    else if |ts| > 1 && ts[1] == Lt then
      match ParseList(ts[2..])
      case None => None
      case Some(p) =>
        if p.1 != [] && p.1[0] == Gt then Some((Node(ts[0].text, p.0), p.1[1..])) else None
    else Some((Node(ts[0].text, []), ts[1..]))
  }

  /** Reads a nonempty comma-separated list of rendered types. */
  function ParseList(ts: seq<Token>): (r: Option<(seq<Tree>, seq<Token>)>)
    ensures r.Some? ==> |r.value.1| < |ts| && r.value.0 != []
    decreases |ts|, 1
  {
    match ParseNode(ts)
    case None => None
    case Some(p) =>
      if p.1 != [] && p.1[0] == Comma then
        match ParseList(p.1[1..])
        case None => None
        case Some(q) => Some(([p.0] + q.0, q.1))
      else Some(([p.0], p.1))
  }

  /** Reads a whole token list as one rendered type. */
  function Parse(ts: seq<Token>): Option<Tree>
  {
    match ParseNode(ts)
    case Some(p) => if p.1 == [] then Some(p.0) else None
    case None => None
  }

  /** A token list that cannot continue a type just ended. */
  predicate Follows(rest: seq<Token>)
  {
    rest == [] || rest[0] != Lt
  }

  /** Rendering can be read back: a library's tokens, followed by anything
      that does not open a generic list, parse to its shape. */
  lemma {:induction false} ParseRender(lib: Library, rest: seq<Token>)
    requires Follows(rest)
    ensures ParseNode(Render(lib) + rest) == Some((Shape(lib), rest))
    decreases lib, 1
  {
    var ts := Render(lib) + rest;
    if lib.resolved == [] {
      assert ts == [Path(lib.instance)] + rest;
      assert ts[1..] == rest;
    } else {
      var body := Join(RenderChildren(lib));
      assert ts == [Path(lib.instance), Lt] + (body + [Gt] + rest);
      assert ts[2..] == body + ([Gt] + rest);
      ParseChildren(lib, 0, [Gt] + rest);
      assert RenderChildren(lib)[0..] == RenderChildren(lib);
      assert Shape(lib).children[0..] == Shape(lib).children;
    }
  }

  lemma {:induction false} ParseChildren(lib: Library, j: nat, rest: seq<Token>)
    requires j < |lib.resolved|
    requires rest != [] && rest[0] == Gt
    ensures ParseList(Join(RenderChildren(lib)[j..]) + rest) == Some((Shape(lib).children[j..], rest))
    decreases lib, 0, |lib.resolved| - j
  {
    var parts := RenderChildren(lib)[j..];
    var child := lib.resolved[j];
    assert parts[0] == Render(child);
    if j == |lib.resolved| - 1 {
      assert Join(parts) == Render(child);
      ParseRender(child, rest);
      assert Shape(lib).children[j..] == [Shape(child)];
    } else {
      var tail := Join(RenderChildren(lib)[j + 1..]) + rest;
      assert parts[1..] == RenderChildren(lib)[j + 1..];
      assert Join(parts) + rest == Render(child) + ([Comma] + tail);
      ParseRender(child, [Comma] + tail);
      assert ([Comma] + tail)[1..] == tail;
      ParseChildren(lib, j + 1, rest);
      assert Shape(lib).children[j..] == [Shape(child)] + Shape(lib).children[j + 1..];
    }
  }

  /** Hence the rendering of a library determines its shape, and shows
      nothing else: `name` and `required` are never rendered. */
  lemma RenderDeterminesShape(a: Library, b: Library)
    ensures Parse(Render(a)) == Some(Shape(a))
    ensures Render(a) == Render(b) ==> Shape(a) == Shape(b)
  {
    ParseRender(a, []);
    ParseRender(b, []);
    assert Render(a) + [] == Render(a);
    assert Render(b) + [] == Render(b);
  }

  /** `name` and `required` play no part in rendering, at any depth. */
  lemma {:induction false} RenderIgnoresRequired(a: Library, b: Library)
    requires Shape(a) == Shape(b)
    ensures Render(a) == Render(b)
    decreases a
  {
    assert |a.resolved| == |Shape(a).children| == |Shape(b).children| == |b.resolved|;
    forall i | 0 <= i < |a.resolved| ensures Render(a.resolved[i]) == Render(b.resolved[i]) {
      assert Shape(a).children[i] == Shape(b).children[i];
      RenderIgnoresRequired(a.resolved[i], b.resolved[i]);
    }
    assert RenderChildren(a) == RenderChildren(b);
  }

  /** The table entries of the requested libraries, in the component's order. */
  function Requested(c: Component, t: Table): (r: seq<Library>)
    requires forall i :: 0 <= i < |c.libraryList| ==> Lower(c.libraryList[i]) in t
    ensures |r| == |c.libraryList|
    ensures forall i :: 0 <= i < |r| ==> r[i] == t[Lower(c.libraryList[i])]
  {
    seq(|c.libraryList|, i requires 0 <= i < |c.libraryList| => t[Lower(c.libraryList[i])])
  }

  function RenderAll(libs: seq<Library>): (r: seq<seq<Token>>)
    ensures |r| == |libs|
    ensures forall i :: 0 <= i < |libs| ==> r[i] == Render(libs[i])
  {
    seq(|libs|, i requires 0 <= i < |libs| => Render(libs[i]))
  }

  /** The macro output: the component name with the rendering of each
      requested library's table entry, in the component's order; `None`
      when a requested name has no entry (the `unwrap` panics). */
  function ComponentOutput(c: Component, t: Table): Option<seq<Token>>
  {
    if forall i :: 0 <= i < |c.libraryList| ==> Lower(c.libraryList[i]) in t then
      Some([Path(c.name), Lt] + Join(RenderAll(Requested(c, t))) + [Gt])
    else None
  }

  /** `ToTokens for FullyDescribed` / `for PathDescribed`: collect the
      requested entries, then emit `name<lib, ...>`. */
  method RenderComponent(c: Component, t: Table) returns (r: Option<seq<Token>>)
    ensures r == ComponentOutput(c, t)
  {
    var list: seq<Library> := [];
    var i := 0;
    while i < |c.libraryList|
      invariant 0 <= i <= |c.libraryList|
      invariant |list| == i
      invariant forall j :: 0 <= j < i ==> Lower(c.libraryList[j]) in t && list[j] == t[Lower(c.libraryList[j])]
    {
      var key := Lower(c.libraryList[i]);
      if key !in t {
        return None;
      }
      list := list + [t[key]];
      i := i + 1;
    }
    assert list == Requested(c, t);
    r := Some([Path(c.name), Lt] + Join(RenderAll(list)) + [Gt]);
  }

  /** Reads a component output back: its name and the shapes of the
      libraries in order. */
  function ParseComponent(ts: seq<Token>): Option<(string, seq<Tree>)>
  {
    if |ts| < 2 || !ts[0].Path? || ts[1] != Lt then None
    else match ParseList(ts[2..])
      case Some(p) => if p.1 == [Gt] then Some((ts[0].text, p.0)) else None
      case None => None
  }

  /** The output holds exactly the shapes of the requested entries, in the
      component's order, and fails exactly when one is missing. */
  lemma ComponentOutputShapes(c: Component, t: Table)
    requires c.libraryList != []
    ensures ComponentOutput(c, t).None? <==> exists i :: 0 <= i < |c.libraryList| && Lower(c.libraryList[i]) !in t
    ensures ComponentOutput(c, t).Some? ==>
      ParseComponent(ComponentOutput(c, t).value) == Some((c.name, ShapeAll(Requested(c, t))))
  {
    if ComponentOutput(c, t).Some? {
      var libs := Requested(c, t);
      var holder := Library(c.name, c.name, [], libs);
      var parts := RenderChildren(holder);
      assert parts == RenderAll(libs);
      var ts := ComponentOutput(c, t).value;
      assert ts == [Path(c.name), Lt] + (Join(parts) + [Gt]);
      assert ts[2..] == Join(parts) + [Gt];
      assert parts[0..] == parts;
      ParseChildren(holder, 0, [Gt]);
      assert ParseList(ts[2..]) == Some((Shape(holder).children[0..], [Gt]));
      assert Shape(holder).children[0..] == ShapeAll(libs);
    }
  }

  function ShapeAll(libs: seq<Library>): (r: seq<Tree>)
    ensures |r| == |libs|
    ensures forall i :: 0 <= i < |libs| ==> r[i] == Shape(libs[i])
  {
    seq(|libs|, i requires 0 <= i < |libs| => Shape(libs[i]))
  }
}
