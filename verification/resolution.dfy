/** The fixed-point loop both component macros run over their `impl_map`
    (`FullyDescribed::resolve` in mu_macro/src/from_macro.rs and the loop in
    `PathDescribed::resolve` in mu_macro/src/from_path.rs). */
module Resolution {
  import opened Outcomes
  import opened Text
  import opened Libraries

  /** How the loop ends: every entry resolved; a required name with no
      entry (`resolve(..).unwrap()` panics); a pass that changed nothing
      ("Circular dependency detected"); or, in the model only, the fuel that
      stands for the source's unbounded loop ran out. */
  datatype Verdict = Resolved | Missing | Circular | OutOfFuel

  /** Every required name has an entry. */
  predicate AllPresent(required: seq<string>, t: Table)
  {
    forall r :: r in required ==> Lower(r) in t
  }

  predicate AllResolved(t: Table)
  {
    forall k :: k in t ==> IsResolved(t[k])
  }

  /** Every name entry `k` requires has an entry. */
  predicate Complete(t: Table, k: string)
  {
    k in t ==> AllPresent(t[k].required, t)
  }

  /** No entry requires a name that has no entry. */
  predicate NoneMissing(t: Table)
  {
    forall k {:trigger Complete(t, k)} :: k in t ==> Complete(t, k)
  }

  /** So a walk finds a missing name in some entry exactly when
      `NoneMissing` fails. */
  lemma NoneMissingIff(t: Table)
    ensures NoneMissing(t) <==> forall k :: k in t ==> FirstMissing(t[k].required, t) == None
  {
    forall k | k in t ensures Complete(t, k) <==> FirstMissing(t[k].required, t) == None {
      FirstMissingSound(t[k].required, t);
    }
  }

  /** `temp_map == self.impl_map`: same keys, `Same` entries. */
  predicate SameTable(a: Table, b: Table)
  {
    a.Keys == b.Keys && forall k :: k in a ==> Same(a[k], b[k])
  }

  /** One pass: every entry resolved against the snapshot `t` taken before
      the pass. */
  function Pass(t: Table): Table
  {
    map k | k in t :: t[k].(resolved := t[k].resolved + Pushed(t[k].required, t))
  }

  /** A pass would push no child into entry `k`. */
  predicate NoPush(t: Table, k: string)
  {
    k in t ==> Pushed(t[k].required, t) == []
  }

  /** A pass would push no child anywhere. */
  predicate Stuck(t: Table)
  {
    forall k {:trigger NoPush(t, k)} :: k in t ==> NoPush(t, k)
  }

  /** A table with the same keys whose every entry is the pass's result
      for that key is the pass's result. */
  lemma PassIs(t: Table, t': Table)
    requires t'.Keys == t.Keys
    requires forall k :: k in t ==> t'[k] == t[k].(resolved := t[k].resolved + Pushed(t[k].required, t))
    ensures Pass(t) == t'
  {
  }

  /** The loop, pass by pass, with at most `fuel` passes. The circularity
      test asks whether the pass would push any child; PassUnchangedIff
      shows this is the source's `Same`-based comparison of the table with
      its snapshot, and that a stuck pass leaves the table as it was. */
  function Run(t: Table, fuel: nat): (Verdict, Table)
    decreases fuel
  {
    if AllResolved(t) then (Resolved, t)
    else if fuel == 0 then (OutOfFuel, t)
    else if !NoneMissing(t) then (Missing, t)
    else if Stuck(t) then (Circular, t)
    else Run(Pass(t), fuel - 1)
  }

  /** `b` is `a` with children appended. */
  predicate Grows(a: Library, b: Library)
  {
    b.name == a.name && b.instance == a.instance && b.required == a.required && a.resolved <= b.resolved
  }

  /** `t'` has the keys of `t`, and each entry of `t'` is the entry of `t`
      with children appended. */
  ghost predicate Extends(t: Table, t': Table)
  {
    forall k :: (k in t' <==> k in t) && (k in t ==> Grows(t[k], t'[k]))
  }

  /** The body of the `for lib in self.impl_map.values_mut()` loop: every
      entry is resolved against the snapshot, in whatever order the keys
      come; the first entry whose walk finds a missing name aborts. */
  method RunPass(snapshot: Table) returns (t: Table, missing: Option<string>)
    ensures missing.None? <==> NoneMissing(snapshot)
    ensures missing.Some? ==> exists k :: k in snapshot && FirstMissing(snapshot[k].required, snapshot) == missing
    ensures missing.None? ==> t == Pass(snapshot)
  {
    NoneMissingIff(snapshot);
    t := snapshot;
    var todo := snapshot.Keys;
    while todo != {}
      invariant todo <= snapshot.Keys
      invariant t.Keys == snapshot.Keys
      invariant forall k :: k in snapshot && k !in todo ==> FirstMissing(snapshot[k].required, snapshot) == None
      invariant forall k :: k in snapshot ==> t[k] == if k in todo then snapshot[k] else Pass(snapshot)[k]
      decreases todo
    {
      var k :| k in todo;
      var lib, m := ResolveLibrary(t[k], snapshot);
      if m.Some? {
        missing := m;
        return;
      }
      t := t[k := lib];
      todo := todo - {k};
    }
    missing := None;
  }

  /** The `while` loop: until every entry is resolved, snapshot the table,
      run a pass, and stop as circular when the pass changed nothing. */
  method FixedPoint(t0: Table, fuel: nat) returns (verdict: Verdict, missing: Option<string>, t: Table)
    ensures (verdict, t) == Run(t0, fuel)
    ensures missing.Some? <==> verdict == Missing
    ensures missing.Some? ==> exists k :: k in t && FirstMissing(t[k].required, t) == missing
  {
    t := t0;
    var f := fuel;
    missing := None;
    ghost var goal := Run(t0, fuel);
    while !AllResolved(t)
      invariant Run(t, f) == goal
      invariant missing.None?
      decreases f
    {
      if f == 0 {
        verdict := OutOfFuel;
        return;
      }
      var stop, t';
      stop, verdict, missing, t' := Step(t, f);
      t := t';
      if stop {
        return;
      }
      f := f - 1;
    }
    verdict := Resolved;
  }

  /** One turn of the loop body on an unresolved table: a pass, then the
      circularity check. */
  method Step(snapshot: Table, f: nat) returns (stop: bool, verdict: Verdict, missing: Option<string>, t: Table)
    requires !AllResolved(snapshot) && f > 0
    ensures stop ==> (verdict, t) == Run(snapshot, f)
    ensures stop ==> (missing.Some? <==> verdict == Missing)
    ensures missing.Some? ==> exists k :: k in t && FirstMissing(t[k].required, t) == missing
    ensures !stop ==> missing.None? && Run(t, f - 1) == Run(snapshot, f)
  {
    t, missing := RunPass(snapshot);
    if missing.Some? {
      stop, verdict, t := true, Missing, snapshot;
      return;
    }
    stop := SameTable(snapshot, t);
    PassUnchangedIff(snapshot);
    verdict := Circular;
  }

  /** A pass only appends children. */
  lemma PassExtends(t: Table)
    ensures Extends(t, Pass(t))
  {
  }

  lemma ExtendsTransitive(t: Table, t': Table, t'': Table)
    requires Extends(t, t') && Extends(t', t'')
    ensures Extends(t, t'')
  {
    forall k | k in t ensures Grows(t[k], t''[k]) {
      assert t[k].resolved <= t'[k].resolved;
      assert t'[k].resolved <= t''[k].resolved;
    }
  }

  /** The loop only appends children, whatever it ends with. */
  lemma {:induction false} RunExtends(t: Table, fuel: nat)
    ensures Extends(t, Run(t, fuel).1)
    decreases fuel
  {
    if !AllResolved(t) && fuel > 0 && NoneMissing(t) && !Stuck(t) {
      RunExtends(Pass(t), fuel - 1);
      PassExtends(t);
      ExtendsTransitive(t, Pass(t), Run(Pass(t), fuel - 1).1);
    } else {
      assert forall k :: k in t ==> Grows(t[k], t[k]);
    }
  }

  /** `n` passes, one after another. */
  function Iterate(t: Table, n: nat): Table
    decreases n
  {
    if n == 0 then t else Iterate(Pass(t), n - 1)
  }

  /** A table on which the loop runs another pass. */
  predicate Progressing(t: Table)
  {
    !AllResolved(t) && NoneMissing(t) && !Stuck(t)
  }

  /** A loop whose every table so far would run another pass is cut off by
      the fuel: it neither finishes nor reports an error. */
  lemma {:induction false} RunRunsOut(t: Table, fuel: nat)
    requires forall n :: 0 <= n <= fuel ==> Progressing(Iterate(t, n))
    ensures Run(t, fuel).0 == OutOfFuel
    decreases fuel
  {
    assert Progressing(Iterate(t, 0));
    if fuel > 0 {
      forall n | 0 <= n <= fuel - 1 ensures Progressing(Iterate(Pass(t), n)) {
        assert Iterate(t, n + 1) == Iterate(Pass(t), n);
      }
      RunRunsOut(Pass(t), fuel - 1);
    }
  }

  /** The loop reports success only when every entry is resolved, and a
      table whose entries are all resolved on entry is returned as it is,
      without a single pass. */
  lemma {:induction false} RunResolvedMeansAllResolved(t: Table, fuel: nat)
    ensures Run(t, fuel).0 == Resolved ==> AllResolved(Run(t, fuel).1)
    ensures AllResolved(t) ==> Run(t, fuel) == (Resolved, t)
    decreases fuel
  {
    if !AllResolved(t) && fuel > 0 && NoneMissing(t) && !Stuck(t) {
      RunResolvedMeansAllResolved(Pass(t), fuel - 1);
    }
  }

  /** Whether a name is missing never changes from pass to pass: keys and
      requirements are what passes keep. So a table with a missing name and
      an unresolved entry is never reported resolved. */
  lemma {:induction false} RunMissingNeverResolves(t: Table, fuel: nat)
    requires !NoneMissing(t) && !AllResolved(t)
    ensures Run(t, fuel).0 == Missing || Run(t, fuel).0 == OutOfFuel
  {
  }

  /** A pass leaves the table `Same` as its snapshot exactly when no entry
      gains a child, and then it leaves the table exactly as it was. */
  lemma PassUnchangedIff(t: Table)
    ensures SameTable(t, Pass(t)) <==> Stuck(t)
    ensures Stuck(t) <==> Pass(t) == t
  {
    var t' := Pass(t);
    if SameTable(t, t') || t' == t {
      forall k | k in t ensures NoPush(t, k) {
        assert |t'[k].resolved| == |t[k].resolved| + |Pushed(t[k].required, t)|;
      }
    }
    if Stuck(t) {
      forall k | k in t ensures t'[k] == t[k] {
        assert NoPush(t, k);
        assert t[k].resolved + [] == t[k].resolved;
      }
      assert t' == t;
      forall k | k in t ensures Same(t[k], t'[k]) {
        SameIsEquivalence(t[k], t[k], t[k]);
      }
    }
  }
}
