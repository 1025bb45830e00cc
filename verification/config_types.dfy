/** The architecture and module-kind tokens of the build configuration
    (mu_config/src/types.rs) and the abstract TOML value they are read from. */
module ConfigTypes {
  import opened Outcomes
  import opened Text

  /** A TOML value as the configuration code sees it: a string, a table whose
      entries come in the table's iteration order, or any other kind of value
      (integer, boolean, array, date), which the code never looks into. */
  datatype Value = Str(s: string) | Table(entries: seq<(string, Value)>) | Other

  datatype Architecture = Common | X64 | Custom(name: string)

  datatype Module = Common | Std | DxeDriver | Custom(name: string)

  const ArchitectureError := "Architecture must be a string"
  const ModuleError := "Module must be a string"

  /** `Architecture::try_from(&Value)`: case-insensitive match on the known
      names, anything else kept as `Custom` of its lower-case text. */
  function ArchitectureFrom(v: Value): (r: Result<Architecture, string>)
    ensures r.Ok? <==> v.Str?
    ensures r.Err? ==> r.error == ArchitectureError
    ensures v.Str? ==> (r.value == Architecture.Common <==> Lower(v.s) == "common")
    ensures v.Str? ==> (r.value == Architecture.X64 <==> Lower(v.s) == "x64")
    ensures r.Ok? && r.value.Custom? ==>
      r.value.name == Lower(v.s) && r.value.name != "common" && r.value.name != "x64"
  {
    match v
    case Str(s) =>
      var t := Lower(s);
      if t == "common" then Ok(Architecture.Common)
      else if t == "x64" then Ok(Architecture.X64)
      else Ok(Architecture.Custom(t))
    case _ => Err(ArchitectureError)
  }

  /** `Module::try_from(&Value)`: the same scheme with three known names. */
  function ModuleFrom(v: Value): (r: Result<Module, string>)
    ensures r.Ok? <==> v.Str?
    ensures r.Err? ==> r.error == ModuleError
    ensures v.Str? ==> (r.value == Module.Common <==> Lower(v.s) == "common")
    ensures v.Str? ==> (r.value == Module.Std <==> Lower(v.s) == "std")
    ensures v.Str? ==> (r.value == Module.DxeDriver <==> Lower(v.s) == "dxe_driver")
    ensures r.Ok? && r.value.Custom? ==>
      r.value.name == Lower(v.s) && r.value.name !in {"common", "std", "dxe_driver"}
  {
    match v
    case Str(s) =>
      var t := Lower(s);
      if t == "common" then Ok(Module.Common)
      else if t == "std" then Ok(Module.Std)
      else if t == "dxe_driver" then Ok(Module.DxeDriver)
      else Ok(Module.Custom(t))
    case _ => Err(ModuleError)
  }

  /** The canonical spelling of an architecture; the reverse of ArchitectureFrom. */
  function ArchitectureName(a: Architecture): string
  {
    match a
    case Common => "common"
    case X64 => "x64"
    case Custom(n) => n
  }

  function ModuleName(m: Module): string
  {
    match m
    case Common => "common"
    case Std => "std"
    case DxeDriver => "dxe_driver"
    case Custom(n) => n
  }

  /** The values ArchitectureFrom can produce: a `Custom` holds lower-case
      text that is not one of the known names. */
  predicate CanonicalArchitecture(a: Architecture)
  {
    a.Custom? ==> IsLower(a.name) && a.name != "common" && a.name != "x64"
  }

  predicate CanonicalModule(m: Module)
  {
    m.Custom? ==> IsLower(m.name) && m.name !in {"common", "std", "dxe_driver"}
  }

  /** Reading a string never fails, only depends on its lower-case form, and
      always yields a canonical value. */
  lemma ArchitectureFromString(s: string)
    ensures ArchitectureFrom(Str(s)).Ok?
    ensures ArchitectureFrom(Str(s)) == ArchitectureFrom(Str(Lower(s)))
    ensures CanonicalArchitecture(ArchitectureFrom(Str(s)).value)
  {
    LowerIsLower(s);
  }

  lemma ModuleFromString(s: string)
    ensures ModuleFrom(Str(s)).Ok?
    ensures ModuleFrom(Str(s)) == ModuleFrom(Str(Lower(s)))
    ensures CanonicalModule(ModuleFrom(Str(s)).value)
  {
    LowerIsLower(s);
  }

  /** Every canonical architecture is read back from its own name, so the
      conversion loses nothing but letter case. */
  lemma ArchitectureRoundTrip(a: Architecture)
    requires CanonicalArchitecture(a)
    ensures ArchitectureFrom(Str(ArchitectureName(a))) == Ok(a)
  {
    if a.Custom? {
      LowerOfLower(a.name);
    }
  }

  lemma ModuleRoundTrip(m: Module)
    requires CanonicalModule(m)
    ensures ModuleFrom(Str(ModuleName(m))) == Ok(m)
  {
    if m.Custom? {
      LowerOfLower(m.name);
    }
  }
}
