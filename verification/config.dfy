/** The library-instance table of the build configuration
    (mu_config/src/lib.rs): a TOML table walked into a dictionary keyed by
    (library name, architecture). */
module Config {
  import opened Text
  import opened ConfigTypes

  /** The architectures whose sub-tables are read, and the module kinds whose
      sub-tables are recognised but not read. */
  const ARCHITECTURES: seq<string> := ["common", "x64"]
  const MODULES: seq<string> := ["common"]

  /** The architecture every top-level entry is filed under. */
  const DefaultArch := "common"

  /** One chosen library instance. */
  datatype Instance = Instance(name: string, path: string, arch: string)

  /** (library name, architecture), both as written in the table. */
  type Key = (string, string)

  predicate IsArchitectureName(name: string)
  {
    Lower(name) in ARCHITECTURES
  }

  predicate IsModuleName(name: string)
  {
    Lower(name) in MODULES
  }

  /** The dictionary after walking `t.entries[i..]` under `arch`, starting
      from `m`: the meaning of `parse_table` for a whole table is
      `Walk(m, t, arch, 0)`. */
  function Walk(m: map<Key, Instance>, t: Value, arch: string, i: nat): map<Key, Instance>
    requires t.Table? && i <= |t.entries|
    decreases t, |t.entries| - i
  {
    if i == |t.entries| then m
    else
      var name := t.entries[i].0;
      var v := t.entries[i].1;
      var m' :=
        if v.Str? then m[(name, arch) := Instance(name, v.s, arch)]
        else if v.Table? && IsArchitectureName(name) then Walk(m, v, name, 0)
        else m;
      Walk(m', t, arch, i + 1)
  }

  /** The keys a walk of `t.entries[i..]` under `arch` writes. */
  function Written(t: Value, arch: string, i: nat): set<Key>
    requires t.Table? && i <= |t.entries|
    decreases t, |t.entries| - i
  {
    if i == |t.entries| then {}
    else
      var name := t.entries[i].0;
      var v := t.entries[i].1;
      var here :=
        if v.Str? then {(name, arch)}
        else if v.Table? && IsArchitectureName(name) then Written(v, name, 0)
        else {};
      here + Written(t, arch, i + 1)
  }

  /** The instances a walk of `t.entries[i..]` under `arch` can file: one
      per string entry, carrying the entry's name, its path and the
      architecture it is read under. */
  function Offered(t: Value, arch: string, i: nat): set<Instance>
    requires t.Table? && i <= |t.entries|
    decreases t, |t.entries| - i
  {
    if i == |t.entries| then {}
    else
      var name := t.entries[i].0;
      var v := t.entries[i].1;
      var here :=
        if v.Str? then {Instance(name, v.s, arch)}
        else if v.Table? && IsArchitectureName(name) then Offered(v, name, 0)
        else {};
      here + Offered(t, arch, i + 1)
  }

  /** Every instance is filed under its own name and architecture. */
  predicate WellKeyed(m: map<Key, Instance>)
  {
    forall k :: k in m ==> m[k].name == k.0 && m[k].arch == k.1
  }

  /** The dictionary the deserializer builds from the top-level table. */
  function Deserialize(top: Value): map<Key, Instance>
    requires top.Table?
  {
    Walk(map[], top, DefaultArch, 0)
  }

  class LibraryInstances {
    var instances: map<Key, Instance>

    /** `LibraryInstances::default()`. */
    constructor ()
      ensures instances == map[]
    {
      instances := map[];
    }

    /** `parse_table`: string entries become instances under `arch`,
        architecture-named sub-tables are walked under their own name as
        written, module-named sub-tables and other values are skipped. */
    method ParseTable(t: Value, arch: string)
      requires t.Table?
      modifies this
      ensures instances == Walk(old(instances), t, arch, 0)
      decreases t
    {
      var i := 0;
      while i < |t.entries|
        invariant 0 <= i <= |t.entries|
        invariant Walk(instances, t, arch, i) == Walk(old(instances), t, arch, 0)
      {
        var name := t.entries[i].0;
        var v := t.entries[i].1;
        match v {
          case Str(path) =>
            instances := instances[(name, arch) := Instance(name, path, arch)];
          case Table(_) =>
            if IsArchitectureName(name) {
              ParseTable(v, name);
            } else if IsModuleName(name) {
              // module filtering is not implemented: the table is skipped
            }
          case Other =>
        }
        i := i + 1;
      }
    }
  }

  /** The `deserialize` entry point: walk the top-level table under "common". */
  method DeserializeInstances(top: Value) returns (li: LibraryInstances)
    requires top.Table?
    ensures fresh(li)
    ensures li.instances == Deserialize(top)
  {
    li := new LibraryInstances();
    li.ParseTable(top, DefaultArch);
  }

  /** A walk only adds: the keys afterwards are the keys before plus the
      written ones, entries at keys it does not write keep their instance,
      every instance it writes is one a string entry offers (so its path is
      that entry's value), and every instance it writes carries its own
      key. */
  lemma {:induction false} WalkEffect(m: map<Key, Instance>, t: Value, arch: string, i: nat)
    requires t.Table? && i <= |t.entries|
    ensures Walk(m, t, arch, i).Keys == m.Keys + Written(t, arch, i)
    ensures forall k :: k in m && k !in Written(t, arch, i) ==> Walk(m, t, arch, i)[k] == m[k]
    ensures forall k :: k in Written(t, arch, i) ==> Walk(m, t, arch, i)[k] in Offered(t, arch, i)
    ensures WellKeyed(m) ==> WellKeyed(Walk(m, t, arch, i))
    decreases t, |t.entries| - i
  {
    if i < |t.entries| {
      var name := t.entries[i].0;
      var v := t.entries[i].1;
      var m' :=
        if v.Str? then m[(name, arch) := Instance(name, v.s, arch)]
        else if v.Table? && IsArchitectureName(name) then Walk(m, v, name, 0)
        else m;
      if v.Table? && IsArchitectureName(name) {
        WalkEffect(m, v, name, 0);
      }
      WalkEffect(m', t, arch, i + 1);
      var w := Walk(m, t, arch, i);
      forall k | k in Written(t, arch, i) ensures w[k] in Offered(t, arch, i) {
        if k !in Written(t, arch, i + 1) {
          assert w[k] == m'[k];
        }
      }
    }
  }

  /** The last write wins: a string entry at position `j` whose key no later
      entry writes again leaves its own instance, with its own path, at that
      key. */
  lemma {:induction false} WalkLastWins(m: map<Key, Instance>, t: Value, arch: string, i: nat, j: nat)
    requires t.Table? && i <= j < |t.entries| && t.entries[j].1.Str?
    requires (t.entries[j].0, arch) !in Written(t, arch, j + 1)
    ensures (t.entries[j].0, arch) in Walk(m, t, arch, i)
    ensures Walk(m, t, arch, i)[(t.entries[j].0, arch)] == Instance(t.entries[j].0, t.entries[j].1.s, arch)
    decreases j - i
  {
    var name := t.entries[i].0;
    var v := t.entries[i].1;
    var m' :=
      if v.Str? then m[(name, arch) := Instance(name, v.s, arch)]
      else if v.Table? && IsArchitectureName(name) then Walk(m, v, name, 0)
      else m;
    if i < j {
      WalkLastWins(m', t, arch, i + 1, j);
    } else {
      WalkEffect(m', t, arch, i + 1);
    }
  }

  /** Every key a walk writes names either the walk's architecture or an
      architecture-named sub-table, spelled as written. */
  lemma {:induction false} WrittenArchitectures(t: Value, arch: string, i: nat)
    requires t.Table? && i <= |t.entries|
    ensures forall k :: k in Written(t, arch, i) ==> k.1 == arch || IsArchitectureName(k.1)
    decreases t, |t.entries| - i
  {
    if i < |t.entries| {
      var v := t.entries[i].1;
      if v.Table? && IsArchitectureName(t.entries[i].0) {
        WrittenArchitectures(v, t.entries[i].0, 0);
      }
      WrittenArchitectures(t, arch, i + 1);
    }
  }

  /** A string entry at position j is filed under (its name, arch); an
      architecture-named sub-table at position j has its string entries filed
      under the sub-table's name as written. */
  lemma {:induction false} WrittenEntries(t: Value, arch: string, i: nat, j: nat)
    requires t.Table? && i <= j < |t.entries|
    ensures t.entries[j].1.Str? ==> (t.entries[j].0, arch) in Written(t, arch, i)
    ensures t.entries[j].1.Table? && IsArchitectureName(t.entries[j].0) ==>
      Written(t.entries[j].1, t.entries[j].0, 0) <= Written(t, arch, i)
    decreases |t.entries| - i
  {
    if i < j {
      WrittenEntries(t, arch, i + 1, j);
    }
  }

  /** Module names are a subset of architecture names, so the module branch
      of `parse_table` is never taken: a table named "common" is always
      walked as an architecture. */
  lemma ModuleBranchUnreachable(name: string)
    ensures IsModuleName(name) ==> IsArchitectureName(name)
  {
  }

  /** What the deserializer builds: the keys it writes, each with an
      instance carrying that key and the path of a string entry of that name
      read under that architecture; a top-level string entry that no later
      entry overwrites keeps its own path under "common". */
  lemma DeserializeEffect(top: Value)
    requires top.Table?
    ensures Deserialize(top).Keys == Written(top, DefaultArch, 0)
    ensures WellKeyed(Deserialize(top))
    ensures forall k :: k in Deserialize(top) ==> Deserialize(top)[k] in Offered(top, DefaultArch, 0)
    ensures forall j :: 0 <= j < |top.entries| && top.entries[j].1.Str? &&
                        (top.entries[j].0, DefaultArch) !in Written(top, DefaultArch, j + 1) ==>
              && (top.entries[j].0, DefaultArch) in Deserialize(top)
              && Deserialize(top)[(top.entries[j].0, DefaultArch)] == Instance(top.entries[j].0, top.entries[j].1.s, DefaultArch)
  {
    WalkEffect(map[], top, DefaultArch, 0);
    forall j | 0 <= j < |top.entries| && top.entries[j].1.Str? &&
               (top.entries[j].0, DefaultArch) !in Written(top, DefaultArch, j + 1)
      ensures (top.entries[j].0, DefaultArch) in Deserialize(top)
      ensures Deserialize(top)[(top.entries[j].0, DefaultArch)] == Instance(top.entries[j].0, top.entries[j].1.s, DefaultArch)
    {
      WalkLastWins(map[], top, DefaultArch, 0, j);
    }
  }

  /** A configuration with a top-level `AdvLib` entry and an `x64`
      sub-table that also names `AdvLib` gives both keys the crate's test
      asserts, each with its own path. */
  lemma SampleConfig()
    ensures var top := Table([("AdvLib", Str("pkg1::AdvLibBase")),
                              ("x64", Table([("AdvLib", Str("pkg1::AdvLibX64"))]))]);
      && ("AdvLib", "common") in Deserialize(top)
      && ("AdvLib", "x64") in Deserialize(top)
      && Deserialize(top)[("AdvLib", "common")] == Instance("AdvLib", "pkg1::AdvLibBase", "common")
      && Deserialize(top)[("AdvLib", "x64")] == Instance("AdvLib", "pkg1::AdvLibX64", "x64")
  {
    var sub := Table([("AdvLib", Str("pkg1::AdvLibX64"))]);
    assert IsArchitectureName("x64") by {
      assert Lower("x64") == "x64";
    }
  }
}
