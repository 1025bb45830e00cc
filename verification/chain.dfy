/** A requirement chain three deep, `A=ABase<B>; B=BBase<C>; C=CBase;`, under
    the resolver as written (mu_macro/src/lib.rs and
    mu_macro/src/from_macro.rs): `resolve` runs on every entry on every
    pass, so `B`, once resolved, is handed `C` again on each later pass,
    never counts as resolved again, and the loop neither finishes nor
    reports a circular dependency. */
module Chain {
  import opened Outcomes
  import opened Text
  import opened Libraries
  import opened Resolution
  import opened FromMacro
  import opened Settling

  const LibC := Library("C", "CBase", [], [])
  const LibA := Library("A", "ABase", ["B"], [])

  /** `B` after `n` copies of `C` have been pushed into it. */
  function LibB(n: nat): (b: Library)
    ensures IsResolved(b) <==> n == 1
  {
    Library("B", "BBase", ["C"], seq(n, _ => LibC))
  }

  /** `A` with the resolved `B` pushed into it. */
  const LibA1 := LibA.(resolved := [LibB(1)])

  /** The table after some passes: `A` as given, `B` holding `n` copies. */
  function ChainTable(a: Library, n: nat): Table
  {
    map["a" := a, "b" := LibB(n), "c" := LibC]
  }

  lemma ChainPushed(a: Library, n: nat)
    requires a == LibA || a == LibA1
    ensures Pushed(LibB(n).required, ChainTable(a, n)) == [LibC]
    ensures Pushed(LibC.required, ChainTable(a, n)) == []
    ensures Pushed(a.required, ChainTable(a, n)) == if n == 1 then [LibB(1)] else []
    ensures NoneMissing(ChainTable(a, n))
  {
    var t := ChainTable(a, n);
    assert Lower("B") == "b";
    assert Lower("C") == "c";
    assert Complete(t, "a") && Complete(t, "b") && Complete(t, "c");
  }

  /** One pass: `B` gains a copy of `C`; `A` gains `B` only on the pass
      after which `B` holds exactly one child. */
  lemma ChainPass(a: Library, n: nat)
    requires a == LibA || a == LibA1
    requires a == LibA1 ==> n != 1
    ensures Pass(ChainTable(a, n)) == ChainTable(if n == 1 then LibA1 else a, n + 1)
  {
    var t := ChainTable(a, n);
    var t' := ChainTable(if n == 1 then LibA1 else a, n + 1);
    ChainPushed(a, n);
    forall k | k in t ensures t'[k] == t[k].(resolved := t[k].resolved + Pushed(t[k].required, t)) {
      if k == "a" {
        if n == 1 {
          assert LibA.resolved + [LibB(1)] == LibA1.resolved;
        } else {
          assert a.resolved + [] == a.resolved;
        }
      } else if k == "b" {
        assert LibB(n).resolved + [LibC] == LibB(n + 1).resolved;
      } else {
        assert LibC.resolved + [] == LibC.resolved;
      }
    }
    PassIs(t, t');
  }

  /** Every table on the way runs another pass: `B` always gains a child,
      and `A` or `B` is unresolved. */
  lemma ChainProgressing(a: Library, n: nat)
    requires a == LibA || a == LibA1
    requires a == LibA1 ==> n != 1
    ensures Progressing(ChainTable(a, n))
  {
    var t := ChainTable(a, n);
    ChainPushed(a, n);
    assert !NoPush(t, "b");
    assert !IsResolved(t["a"]) || !IsResolved(t["b"]);
  }

  /** From the third pass on, each pass only grows `B`. */
  lemma {:induction false} ChainIterate(m: nat, n: nat)
    requires m >= 2
    ensures Iterate(ChainTable(LibA1, m), n) == ChainTable(LibA1, m + n)
    decreases n
  {
    if n > 0 {
      ChainPass(LibA1, m);
      ChainIterate(m + 1, n - 1);
    }
  }

  /** The tables the passes lead to from the declared one. */
  lemma ChainTables(n: nat)
    ensures Iterate(ChainTable(LibA, 0), n) ==
      if n == 0 then ChainTable(LibA, 0)
      else if n == 1 then ChainTable(LibA, 1)
      else ChainTable(LibA1, n)
  {
    if n > 0 {
      ChainPass(LibA, 0);
      if n > 1 {
        ChainPass(LibA, 1);
        ChainIterate(2, n - 2);
        assert Iterate(ChainTable(LibA, 0), n) == Iterate(ChainTable(LibA, 1), n - 1);
      }
    }
  }

  /** As written, the chain never resolves, whatever the number of passes,
      and is never reported circular either. */
  lemma ChainNeverResolves(fuel: nat)
    ensures Run(ChainTable(LibA, 0), fuel).0 == OutOfFuel
  {
    forall n | 0 <= n <= fuel ensures Progressing(Iterate(ChainTable(LibA, 0), n)) {
      ChainTables(n);
      if n == 0 {
        ChainProgressing(LibA, 0);
      } else if n == 1 {
        ChainProgressing(LibA, 1);
      } else {
        ChainProgressing(LibA1, n);
      }
    }
    RunRunsOut(ChainTable(LibA, 0), fuel);
  }

  /** The declarations `A=ABase<B>; B=BBase<C>; C=CBase;` build the starting
      table of the chain. */
  lemma ChainDeclarations()
    ensures BuildTable([LibA, LibB(0), LibC]) == ChainTable(LibA, 0)
  {
    assert Lower("A") == "a";
    assert Lower("B") == "b";
    assert Lower("C") == "c";
    assert [LibA, LibB(0), LibC][..2] == [LibA, LibB(0)];
    assert [LibA, LibB(0)][..1] == [LibA];
    assert [LibA][..0] == [];
    assert BuildTable([LibA]) == map["a" := LibA];
    assert BuildTable([LibA, LibB(0)]) == map["a" := LibA, "b" := LibB(0)];
  }

  /** So `component!(MyDriver<A>; A=ABase<B>; B=BBase<C>; C=CBase;)` has no
      expansion. */
  lemma ChainHasNoExpansion(fuel: nat)
    ensures Expansion(Component("MyDriver", ["A"]), [LibA, LibB(0), LibC], fuel) == None
  {
    ChainDeclarations();
    ChainNeverResolves(fuel);
  }

  /** Two libraries that require each other: no pass can push anything,
      so the first pass is reported as a circular dependency. */
  lemma MutualIsCircular(fuel: nat)
    requires fuel > 0
    ensures var t := map["a" := Library("A", "ABase", ["B"], []), "b" := Library("B", "BBase", ["A"], [])];
      Run(t, fuel) == (Circular, t)
  {
    var a, b := Library("A", "ABase", ["B"], []), Library("B", "BBase", ["A"], []);
    var t := map["a" := a, "b" := b];
    assert Lower("A") == "a" && Lower("B") == "b";
    assert !AllResolved(t) by {
      assert !IsResolved(t["a"]);
    }
    assert NoneMissing(t) by {
      assert Complete(t, "a") && Complete(t, "b");
    }
    assert Stuck(t) by {
      assert Pushed(a.required, t) == [] && Pushed(b.required, t) == [];
      assert NoPush(t, "a") && NoPush(t, "b");
    }
  }

  /** Under the corrected pass the same declarations resolve, and every
      entry ends up holding exactly the entries of its requirements:
      `A` holds `B`, which holds `C`. */
  lemma ChainSettles()
    ensures Settle(ChainTable(LibA, 0)).0 == Resolved
    ensures Aligned(Settle(ChainTable(LibA, 0)).1)
  {
    var t := ChainTable(LibA, 0);
    var rank: map<string, nat> := map["a" := 2, "b" := 1, "c" := 0];
    ChainPushed(LibA, 0);
    assert Lower("B") == "b";
    assert Lower("C") == "c";
    assert RankedAt(t, rank, "a") && RankedAt(t, rank, "b") && RankedAt(t, rank, "c");
    SettleResolvesRanked(t, rank);
    DeclaredIsAligned(t);
    SettleAligned(t);
  }
}
