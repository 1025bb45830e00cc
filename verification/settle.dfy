/** The resolver as evidently intended: a pass leaves a library that is
    already resolved alone, and gives an unresolved one all its children
    at once, in `required` order, as soon as every requirement has a
    resolved entry. Under this pass the loop needs no fuel, resolves every
    table whose requirements are acyclic, and leaves every resolved entry
    holding exactly the entries of its requirements. */
module Settling {
  import opened Text
  import opened Libraries
  import opened Resolution

  /** `resolve` with the guard and the all-or-nothing push. */
  function SettleEntry(lib: Library, t: Table): (r: Library)
    ensures r.name == lib.name && r.instance == lib.instance && r.required == lib.required
    ensures IsResolved(lib) ==> r == lib
    ensures !IsResolved(lib) && Ready(lib.required, t) ==> IsResolved(r)
    ensures !IsResolved(lib) && !Ready(lib.required, t) ==> r == lib
  {
    if IsResolved(lib) then lib
    else if Ready(lib.required, t) then lib.(resolved := Lookups(lib.required, t))
    else lib
  }

  /** One corrected pass, against the snapshot `t`. */
  function SettlePass(t: Table): Table
  {
    map k | k in t :: SettleEntry(t[k], t)
  }

  /** The keys of the entries not yet resolved. */
  function Unresolved(t: Table): set<string>
  {
    set k | k in t && !IsResolved(t[k])
  }

  /** A pass resolves entries and never unresolves one. */
  lemma SettlePassShrinks(t: Table)
    ensures SettlePass(t).Keys == t.Keys
    ensures Unresolved(SettlePass(t)) <= Unresolved(t)
    ensures NoneMissing(t) ==> NoneMissing(SettlePass(t))
  {
    var t' := SettlePass(t);
    if NoneMissing(t) {
      forall k | k in t' ensures Complete(t', k) {
        assert Complete(t, k);
      }
    }
  }

  /** A pass that resolves nothing leaves the table as it was, so testing the
      unresolved keys is the source's test for an unchanged table. */
  lemma SettleUnchangedIff(t: Table)
    ensures Unresolved(SettlePass(t)) == Unresolved(t) <==> SettlePass(t) == t
  {
    var t' := SettlePass(t);
    if Unresolved(t') == Unresolved(t) {
      forall k | k in t ensures t'[k] == t[k] {
        if !IsResolved(t[k]) {
          assert k in Unresolved(t);
          assert k in Unresolved(t');
        }
      }
    }
  }

  lemma StrictSubsetSmaller(a: set<string>, b: set<string>)
    requires a <= b && a != b
    ensures |a| < |b|
  {
    var x :| x in b && x !in a;
    assert b == a + (b - a);
    assert a * (b - a) == {};
    assert x in b - a;
  }

  /** The corrected loop: no fuel, since every pass either resolves another
      entry or ends the loop. */
  function Settle(t: Table): (r: (Verdict, Table))
    decreases |Unresolved(t)|
    ensures r.0 != OutOfFuel
    ensures r.1.Keys == t.Keys
    ensures r.0 == Resolved ==> AllResolved(r.1)
    ensures r.0 == Missing <==> !AllResolved(t) && !NoneMissing(t)
  {
    if AllResolved(t) then (Resolved, t)
    else if !NoneMissing(t) then (Missing, t)
    else
      var t' := SettlePass(t);
      SettlePassShrinks(t);
      if Unresolved(t') == Unresolved(t) then (Circular, t)
      else
        StrictSubsetSmaller(Unresolved(t'), Unresolved(t));
        Settle(t')
  }

  /** Entry `k`, once resolved, holds exactly the entries of its
      requirements, in order, each of them resolved; until then it holds
      nothing. */
  predicate AlignedAt(t: Table, k: string)
  {
    k in t ==>
      if IsResolved(t[k]) then
        forall i :: 0 <= i < |t[k].required| ==>
          && Lower(t[k].required[i]) in t
          && IsResolved(t[Lower(t[k].required[i])])
          && t[k].resolved[i] == t[Lower(t[k].required[i])]
      else t[k].resolved == []
  }

  predicate Aligned(t: Table)
  {
    forall k {:trigger AlignedAt(t, k)} :: k in t ==> AlignedAt(t, k)
  }

  /** A table straight from the declarations, where nothing has children
      yet, is aligned. */
  lemma DeclaredIsAligned(t: Table)
    requires forall k :: k in t ==> t[k].resolved == []
    ensures Aligned(t)
  {
    forall k ensures AlignedAt(t, k) {
    }
  }

  /** A corrected pass keeps every entry aligned: a child copied from the
      snapshot was resolved there and so is left alone by the pass. */
  lemma SettlePassAligned(t: Table)
    requires Aligned(t)
    ensures Aligned(SettlePass(t))
  {
    var t' := SettlePass(t);
    forall k ensures AlignedAt(t', k) {
      assert AlignedAt(t, k);
      if k in t && IsResolved(t'[k]) {
        forall i | 0 <= i < |t'[k].required|
          ensures && Lower(t'[k].required[i]) in t'
                  && IsResolved(t'[Lower(t'[k].required[i])])
                  && t'[k].resolved[i] == t'[Lower(t'[k].required[i])]
        {
          var key := Lower(t[k].required[i]);
          if IsResolved(t[k]) {
            assert key in t && IsResolved(t[key]) && t[k].resolved[i] == t[key];
          } else {
            assert Ready(t[k].required, t);
            assert key in t && IsResolved(t[key]);
            assert t'[k].resolved == Lookups(t[k].required, t);
          }
          assert t'[key] == t[key];
        }
      }
    }
  }

  /** The corrected loop keeps the table aligned, so on success every entry
      holds the entries of its requirements. */
  lemma {:induction false} SettleAligned(t: Table)
    requires Aligned(t)
    ensures Aligned(Settle(t).1)
    decreases |Unresolved(t)|
  {
    if !AllResolved(t) && NoneMissing(t) {
      var t' := SettlePass(t);
      SettlePassShrinks(t);
      if Unresolved(t') != Unresolved(t) {
        StrictSubsetSmaller(Unresolved(t'), Unresolved(t));
        SettlePassAligned(t);
        SettleAligned(t');
      }
    }
  }

  /** Requirements go strictly down in `rank`: the requirement graph has no
      cycle. */
  predicate RankedAt(t: Table, rank: map<string, nat>, k: string)
  {
    k in t ==>
      && k in rank
      && forall i :: 0 <= i < |t[k].required| && Lower(t[k].required[i]) in t ==>
           Lower(t[k].required[i]) in rank && rank[Lower(t[k].required[i])] < rank[k]
  }

  predicate Ranked(t: Table, rank: map<string, nat>)
  {
    forall k {:trigger RankedAt(t, rank, k)} :: k in t ==> RankedAt(t, rank, k)
  }

  /** In an acyclic table with no missing name, below every unresolved entry
      there is an unresolved entry whose requirements are all resolved. */
  lemma {:induction false} FindReady(t: Table, rank: map<string, nat>, k: string) returns (j: string)
    requires k in t && k in rank && !IsResolved(t[k])
    requires NoneMissing(t) && Ranked(t, rank)
    ensures j in t && !IsResolved(t[j]) && Ready(t[j].required, t)
    decreases rank[k]
  {
    assert RankedAt(t, rank, k);
    if Ready(t[k].required, t) {
      j := k;
    } else {
      var req := t[k].required;
      var i :| 0 <= i < |req| && !(Lower(req[i]) in t && IsResolved(t[Lower(req[i])]));
      assert Complete(t, k);
      assert req[i] in req;
      var key := Lower(req[i]);
      assert RankedAt(t, rank, key);
      j := FindReady(t, rank, key);
    }
  }

  /** The corrected loop resolves every acyclic table with no missing name:
      it never reports a circular dependency there. */
  lemma {:induction false} SettleResolvesRanked(t: Table, rank: map<string, nat>)
    requires NoneMissing(t) && Ranked(t, rank)
    ensures Settle(t).0 == Resolved
    decreases |Unresolved(t)|
  {
    if !AllResolved(t) {
      var k :| k in t && !IsResolved(t[k]);
      assert RankedAt(t, rank, k);
      var j := FindReady(t, rank, k);
      var t' := SettlePass(t);
      SettlePassShrinks(t);
      assert j in Unresolved(t) && j !in Unresolved(t');
      StrictSubsetSmaller(Unresolved(t'), Unresolved(t));
      forall k' ensures RankedAt(t', rank, k') {
        assert RankedAt(t, rank, k');
      }
      SettleResolvesRanked(t', rank);
    }
  }
}
