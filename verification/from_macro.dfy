/** The `component!` macro (mu_macro/src/from_macro.rs): a component header
    followed by every library declaration it needs, collected into a table,
    resolved to a fixed point and rendered. */
module FromMacro {
  import opened Outcomes
  import opened Text
  import opened Libraries
  import opened Rendering
  import opened Resolution

  /** The table built from the declarations: each one filed under its
      lower-cased name, a later declaration replacing an earlier one with
      the same key (collecting pairs into a `HashMap`). */
  function BuildTable(decls: seq<Library>): Table
  {
    if decls == [] then map[]
    else
      var last := decls[|decls| - 1];
      BuildTable(decls[..|decls| - 1])[Lower(last.name) := last]
  }

  /** The keys are exactly the lower-cased declared names. */
  lemma {:induction false} BuildTableKeys(decls: seq<Library>)
    ensures BuildTable(decls).Keys == set d | d in decls :: Lower(d.name)
  {
    if decls != [] {
      var init := decls[..|decls| - 1];
      BuildTableKeys(init);
      assert decls == init + [decls[|decls| - 1]];
      assert forall d :: d in decls <==> d in init || d == decls[|decls| - 1];
    }
  }

  /** The entry under a name is the last declaration with that name. */
  lemma {:induction false} BuildTableLastWins(decls: seq<Library>, i: nat)
    requires i < |decls|
    requires forall j :: i < j < |decls| ==> Lower(decls[j].name) != Lower(decls[i].name)
    ensures Lower(decls[i].name) in BuildTable(decls)
    ensures BuildTable(decls)[Lower(decls[i].name)] == decls[i]
  {
    if i < |decls| - 1 {
      var init := decls[..|decls| - 1];
      assert init[i] == decls[i];
      BuildTableLastWins(init, i);
    }
  }

  /** Every entry is one of the declarations. */
  lemma {:induction false} BuildTableValues(decls: seq<Library>)
    ensures forall k :: k in BuildTable(decls) ==> BuildTable(decls)[k] in decls
  {
    if decls != [] {
      BuildTableValues(decls[..|decls| - 1]);
      assert forall d :: d in decls[..|decls| - 1] ==> d in decls;
    }
  }

  /** Why the macro expansion fails: a required or requested name with no
      declaration ("Library X not found" or the `unwrap` in `to_tokens`), a
      pass that changed nothing ("Circular dependency detected"), or, in
      the model only, the fuel ran out. */
  datatype Failure = LibraryNotFound(name: string) | CircularDependency | Exhausted

  /** The expansion of `Component<..>; decls`: the rendered component once
      the table resolves within `fuel` passes and every requested name has
      an entry. */
  function Expansion(c: Component, decls: seq<Library>, fuel: nat): Option<seq<Token>>
  {
    var (verdict, t) := Run(BuildTable(decls), fuel);
    if verdict == Resolved then ComponentOutput(c, t) else None
  }

  /** `FullyDescribed`: the parsed component and the table of declarations. */
  class FullyDescribed {
    const component: Component
    var implMap: Table

    /** `Parse for FullyDescribed`, from the parsed header and declarations. */
    constructor (component: Component, decls: seq<Library>)
      ensures this.component == component && implMap == BuildTable(decls)
    {
      this.component := component;
      implMap := BuildTable(decls);
    }

    /** `FullyDescribed::resolve`, with at most `fuel` passes. */
    method Resolve(fuel: nat) returns (verdict: Verdict, missing: Option<string>)
      modifies this
      ensures (verdict, implMap) == Run(old(implMap), fuel)
      ensures missing.Some? <==> verdict == Missing
      ensures missing.Some? ==> exists k :: k in implMap && FirstMissing(implMap[k].required, implMap) == missing
    {
      var t;
      verdict, missing, t := FixedPoint(implMap, fuel);
      implMap := t;
    }

    /** `ToTokens for FullyDescribed`. */
    method ToTokens() returns (r: Option<seq<Token>>)
      ensures r == ComponentOutput(component, implMap)
    {
      r := RenderComponent(component, implMap);
    }
  }

  /** `from_macro::parse` after the syntax has been read: build, resolve,
      render. */
  method Expand(c: Component, decls: seq<Library>, fuel: nat) returns (r: Result<seq<Token>, Failure>)
    ensures r.Ok? <==> Expansion(c, decls, fuel).Some?
    ensures r.Ok? ==> r.value == Expansion(c, decls, fuel).value
    ensures r == Err(CircularDependency) <==> Run(BuildTable(decls), fuel).0 == Circular
    ensures r == Err(Exhausted) <==> Run(BuildTable(decls), fuel).0 == OutOfFuel
    ensures r.Err? && r.error.LibraryNotFound? ==>
      && Lower(r.error.name) !in BuildTable(decls)
      && (r.error.name in c.libraryList || exists d :: d in decls && r.error.name in d.required)
  {
    var described := new FullyDescribed(c, decls);
    var verdict, missing := described.Resolve(fuel);
    RunExtends(BuildTable(decls), fuel);
    match verdict
    case Missing =>
      var k :| k in described.implMap && FirstMissing(described.implMap[k].required, described.implMap) == missing;
      FirstMissingSound(described.implMap[k].required, described.implMap);
      BuildTableValues(decls);
      assert described.implMap[k].required == BuildTable(decls)[k].required;
      r := Err(LibraryNotFound(missing.value));
    case Circular =>
      r := Err(CircularDependency);
    case OutOfFuel =>
      r := Err(Exhausted);
    case Resolved =>
      var out := described.ToTokens();
      if out.None? {
        var i :| 0 <= i < |c.libraryList| && Lower(c.libraryList[i]) !in described.implMap;
        r := Err(LibraryNotFound(c.libraryList[i]));
      } else {
        r := Ok(out.value);
      }
  }

  /** The declarations of the second and third macro tests: a debug
      library needing a print library, and an advanced library needing it
      too. */
  const Print := Library("PrintLib", "PrintLibBase", [], [])
  const Debug := Library("DebugLib", "DebugLibBase", ["PrintLib"], [])
  const Adv := Library("AdvLib", "AdvLibBase", ["PrintLib"], [])

  lemma DebugPrintTable()
    ensures BuildTable([Debug, Print]) == map["debuglib" := Debug, "printlib" := Print]
  {
    assert Lower("DebugLib") == "debuglib";
    assert Lower("PrintLib") == "printlib";
    assert [Debug, Print][..1] == [Debug];
    assert [Debug][..0] == [];
    assert BuildTable([Debug]) == map["debuglib" := Debug];
  }

  lemma DebugPrintPass(t: Table)
    requires t == map["debuglib" := Debug, "printlib" := Print]
    ensures Pass(t) == map["debuglib" := Debug.(resolved := [Print]), "printlib" := Print]
    ensures NoneMissing(t) && !Stuck(t)
  {
    assert Lower("PrintLib") == "printlib";
    assert Pushed(Debug.required, t) == [Print];
    assert Pushed(Print.required, t) == [];
    var t' := map["debuglib" := Debug.(resolved := [Print]), "printlib" := Print];
    PassIs(t, t');
    assert !NoPush(t, "debuglib");
    assert Complete(t, "debuglib") && Complete(t, "printlib");
  }

  lemma DebugPrintRun(t: Table)
    requires t == map["debuglib" := Debug, "printlib" := Print]
    ensures Run(t, 1) == (Resolved, map["debuglib" := Debug.(resolved := [Print]), "printlib" := Print])
  {
    DebugPrintPass(t);
    assert !IsResolved(t["debuglib"]);
  }

  lemma DebugPrintOutput(t: Table)
    requires t == map["debuglib" := Debug.(resolved := [Print]), "printlib" := Print]
    ensures ComponentOutput(Component("MyDriver", ["DebugLib"]), t) ==
      Some([Path("MyDriver"), Lt, Path("DebugLibBase"), Lt, Path("PrintLibBase"), Gt, Gt])
  {
    assert Lower("DebugLib") == "debuglib";
    var c := Component("MyDriver", ["DebugLib"]);
    var debug' := t["debuglib"];
    assert Requested(c, t) == [debug'];
    assert RenderAll([debug']) == [Render(debug')];
    assert Render(Print) == [Path("PrintLibBase")];
    assert RenderChildren(debug') == [Render(Print)];
    assert Render(debug') == [Path("DebugLibBase"), Lt, Path("PrintLibBase"), Gt];
    assert Join(RenderAll(Requested(c, t))) == Render(debug');
    assert ComponentOutput(c, t) == Some([Path("MyDriver"), Lt] + Render(debug') + [Gt]);
    assert [Path("MyDriver"), Lt] + Render(debug') + [Gt] ==
      [Path("MyDriver"), Lt, Path("DebugLibBase"), Lt, Path("PrintLibBase"), Gt, Gt];
  }

  /** `MyDriver<DebugLib>; DebugLib=DebugLibBase<PrintLib>; PrintLib=PrintLibBase;`
      expands to `MyDriver<DebugLibBase<PrintLibBase>>` after one pass. */
  lemma ExpandDebugPrint()
    ensures Expansion(Component("MyDriver", ["DebugLib"]), [Debug, Print], 1) ==
      Some([Path("MyDriver"), Lt, Path("DebugLibBase"), Lt, Path("PrintLibBase"), Gt, Gt])
  {
    DebugPrintTable();
    DebugPrintRun(BuildTable([Debug, Print]));
    DebugPrintOutput(Run(BuildTable([Debug, Print]), 1).1);
  }

  lemma SharedTable()
    ensures BuildTable([Debug, Adv, Print]) == map["debuglib" := Debug, "advlib" := Adv, "printlib" := Print]
  {
    assert Lower("DebugLib") == "debuglib";
    assert Lower("AdvLib") == "advlib";
    assert Lower("PrintLib") == "printlib";
    assert [Debug, Adv, Print][..2] == [Debug, Adv];
    assert [Debug, Adv][..1] == [Debug];
    assert [Debug][..0] == [];
    assert BuildTable([Debug]) == map["debuglib" := Debug];
    assert BuildTable([Debug, Adv]) == map["debuglib" := Debug, "advlib" := Adv];
  }

  lemma SharedPushed(t: Table)
    requires t == map["debuglib" := Debug, "advlib" := Adv, "printlib" := Print]
    ensures Pushed(Debug.required, t) == [Print]
    ensures Pushed(Adv.required, t) == [Print]
    ensures Pushed(Print.required, t) == []
    ensures NoneMissing(t)
  {
    assert Lower("PrintLib") == "printlib";
    assert Complete(t, "debuglib") && Complete(t, "advlib") && Complete(t, "printlib");
  }

  lemma SharedPass(t: Table)
    requires t == map["debuglib" := Debug, "advlib" := Adv, "printlib" := Print]
    ensures Pass(t) == map["debuglib" := Debug.(resolved := [Print]), "advlib" := Adv.(resolved := [Print]), "printlib" := Print]
    ensures NoneMissing(t) && !Stuck(t)
  {
    SharedPushed(t);
    var t' := map["debuglib" := Debug.(resolved := [Print]), "advlib" := Adv.(resolved := [Print]), "printlib" := Print];
    PassIs(t, t');
    assert !NoPush(t, "debuglib");
  }

  lemma SharedRun(t: Table)
    requires t == map["debuglib" := Debug, "advlib" := Adv, "printlib" := Print]
    ensures Run(t, 1) == (Resolved, map["debuglib" := Debug.(resolved := [Print]), "advlib" := Adv.(resolved := [Print]), "printlib" := Print])
  {
    SharedPass(t);
    assert !IsResolved(t["debuglib"]);
  }

  lemma SharedOutput(t: Table)
    requires t == map["debuglib" := Debug.(resolved := [Print]), "advlib" := Adv.(resolved := [Print]), "printlib" := Print]
    ensures ComponentOutput(Component("MyDriver", ["DebugLib", "AdvLib"]), t) ==
      Some([Path("MyDriver"), Lt, Path("DebugLibBase"), Lt, Path("PrintLibBase"), Gt, Comma,
            Path("AdvLibBase"), Lt, Path("PrintLibBase"), Gt, Gt])
  {
    assert Lower("DebugLib") == "debuglib";
    assert Lower("AdvLib") == "advlib";
    var c := Component("MyDriver", ["DebugLib", "AdvLib"]);
    var debug', adv' := t["debuglib"], t["advlib"];
    assert Requested(c, t) == [debug', adv'];
    assert RenderAll([debug', adv']) == [Render(debug'), Render(adv')];
    assert Render(Print) == [Path("PrintLibBase")];
    assert RenderChildren(debug') == [Render(Print)];
    assert RenderChildren(adv') == [Render(Print)];
    assert Render(debug') == [Path("DebugLibBase"), Lt, Path("PrintLibBase"), Gt];
    assert Render(adv') == [Path("AdvLibBase"), Lt, Path("PrintLibBase"), Gt];
    assert Join([Render(debug'), Render(adv')]) == Render(debug') + [Comma] + Render(adv');
    assert ComponentOutput(c, t) == Some([Path("MyDriver"), Lt] + (Render(debug') + [Comma] + Render(adv')) + [Gt]);
    assert [Path("MyDriver"), Lt] + (Render(debug') + [Comma] + Render(adv')) + [Gt] ==
      [Path("MyDriver"), Lt, Path("DebugLibBase"), Lt, Path("PrintLibBase"), Gt, Comma,
       Path("AdvLibBase"), Lt, Path("PrintLibBase"), Gt, Gt];
  }

  /** `MyDriver<DebugLib, AdvLib>` with both libraries needing `PrintLib`:
      the shared print library is rendered under each of them. */
  lemma ExpandSharedPrint()
    ensures Expansion(Component("MyDriver", ["DebugLib", "AdvLib"]), [Debug, Adv, Print], 1) ==
      Some([Path("MyDriver"), Lt, Path("DebugLibBase"), Lt, Path("PrintLibBase"), Gt, Comma,
            Path("AdvLibBase"), Lt, Path("PrintLibBase"), Gt, Gt])
  {
    SharedTable();
    SharedRun(BuildTable([Debug, Adv, Print]));
    SharedOutput(Run(BuildTable([Debug, Adv, Print]), 1).1);
  }
}
