# Library-instance resolution of the component macros, in Dafny

This project models the core of the `component!` and `component_from_path!`
procedural macros (`mu_macro`), the library-instance table of the build
configuration (`mu_config`), and the ring buffer behind the ring-buffer debug
library (`RustPkg2`).

- **Library records** (`libraries.dfy`). A library has a name, an opaque
  instance path, the interface names it requires, and the child libraries
  resolved so far. `Library::resolve` walks `required` against a table keyed
  by lower-cased name. It pushes a copy of every entry that is already
  resolved. A name with no entry stops the walk. `is_resolved` compares the
  two list lengths. Equality ignores the instance path.
- **Rendering** (`rendering.dfy`). `to_tokens` renders a library as its
  instance path, followed by `<child, ...>` when it has resolved children.
  The component output is `Name<lib, ...>` over the requested libraries.
  Parse-back functions show that rendering is faithful to the resolved tree.
- **The fixed-point loop** (`resolution.dfy`). Both macros run this loop over
  their `impl_map`. Each pass snapshots the table and resolves every entry
  against the snapshot. The loop stops when every entry is resolved. A pass
  that changes nothing is reported as a circular dependency. A missing name
  aborts.
- **`component!`** (`from_macro.dfy`). The declarations become a table and
  the table is resolved (class `FullyDescribed`). Two of the crate's own
  tests are proved as concrete expansions.
- **`component_from_path!`** (`from_path.dfy`). The component's scope comes
  from the configuration. Every requested library and, depth-first, every
  requirement is registered into the table (class `PathDescribed`). Then the
  same loop runs.
- **Configuration** (`config_types.dfy`, `config.dfy`).
  - `Architecture` and `Module` are read case-insensitively, with a `Custom`
    fallback.
  - `parse_table` walks a TOML table into a dictionary keyed by
    (name, architecture).
- **Ring buffer** (`ring_log.dfy`). A byte array with a read index and a
  write index, both advanced modulo the capacity. `write` has no full
  check. The drain loop in `flush` emits the pending bytes in FIFO order.
- **As written versus as intended** (`chain.dfy`, `settle.dfy`). See
  "## Findings".

The code reads one configuration, looks instances up in exactly the
component's scope, and resolves by the fixed-point sweep with its
unchanged-pass circularity test; the model does the same.

## Model

| member | source | states |
|---|---|---|
| Text.Lower | mu_macro/src/from_macro.rs:53 | lower-casing keeps the length and lowers each character on its own |
| Text.LowerIsLower | mu_config/src/types.rs:16-19 | lower-cased text has no upper-case letter, and lower-casing twice is lower-casing once |
| ConfigTypes.ArchitectureFrom | mu_config/src/types.rs:14-23 | the result is Ok exactly for string values. It is `Common` / `X64` exactly when the lower-cased text is "common" / "x64", otherwise `Custom` of the lower-cased text, never a known name. Non-strings give the error |
| ConfigTypes.ModuleFrom | mu_config/src/types.rs:37-46 | the same for "common", "std" and "dxe_driver" |
| ConfigTypes.ArchitectureFromString | mu_config/src/types.rs:15-20 | reading a string never fails, depends only on its lower-case form, and yields a canonical value |
| ConfigTypes.ModuleFromString | mu_config/src/types.rs:38-44 | the same for module kinds |
| ConfigTypes.ArchitectureRoundTrip | mu_config/src/types.rs:16-19 | every canonical architecture is read back from its own name |
| ConfigTypes.ModuleRoundTrip | mu_config/src/types.rs:39-43 | every canonical module kind is read back from its own name |
| Config.LibraryInstances.constructor | mu_config/src/lib.rs:65 | the dictionary starts empty |
| Config.LibraryInstances.ParseTable | mu_config/src/lib.rs:27-49 | the loop, with its recursion into architecture tables, leaves the dictionary the walk specifies |
| Config.DeserializeInstances | mu_config/src/lib.rs:60-69 | deserializing walks the top-level table under "common" into a fresh dictionary |
| Config.WalkEffect | mu_config/src/lib.rs:27-37 | a walk only inserts. The keys afterwards are the old keys plus the written ones. Keys it does not write keep their instance. Every written key holds an instance some string entry offers, with that entry's path. Every instance carries its own name and architecture |
| Config.WalkLastWins | mu_config/src/lib.rs:31-36 | a string entry whose key no later entry writes again leaves exactly its own name, path and architecture at that key |
| Config.WrittenArchitectures | mu_config/src/lib.rs:38-40 | every written key names the walk's architecture or an architecture-named sub-table, spelled as written |
| Config.WrittenEntries | mu_config/src/lib.rs:30-40 | a string entry is filed under (its name, arch). An architecture-named sub-table's entries are filed under that sub-table's name |
| Config.ModuleBranchUnreachable | mu_config/src/lib.rs:38-43 | every module name is an architecture name, so the module branch is never taken |
| Config.DeserializeEffect | mu_config/src/lib.rs:65-68 | the dictionary's keys are exactly the written keys. Every instance carries its key and the path of a string entry of that name read under that architecture. A top-level string entry not overwritten later keeps its own path under "common" |
| Config.SampleConfig | mu_config/src/lib.rs:76-82 | a configuration with a top-level AdvLib entry and an x64 sub-table gives both keys the crate test asserts, ("AdvLib", "common") and ("AdvLib", "x64"), each with its own path |
| Libraries.FromDeclaration | mu_macro/src/lib.rs:82-111 | a parsed library has no children. Without `<...>` it requires nothing. A bracketed list must be nonempty and becomes `required` |
| Libraries.ComponentFromDeclaration | mu_macro/src/lib.rs:28-43 | a component header needs a nonempty library list |
| Libraries.SameIffErased | mu_macro/src/lib.rs:54-59 | library equality holds exactly when the libraries agree once every instance path, at every depth, is blanked |
| Libraries.SameIsEquivalence | mu_macro/src/lib.rs:54-59 | library equality is reflexive, symmetric and transitive |
| Libraries.SameIgnoresInstance | mu_macro/src/lib.rs:54-59 | changing the instance path keeps a library equal |
| Libraries.FirstMissingSound | mu_macro/src/lib.rs:65-72 | the walk stops with a name exactly when some required name has no entry, and the name it reports is required and has none |
| Libraries.PushedFromTable | mu_macro/src/lib.rs:64-69 | at most one child per requirement is pushed, each a resolved table entry found under a required name |
| Libraries.PushedWhenReady | mu_macro/src/lib.rs:64-69 | when every requirement has a resolved entry, nothing is missing and exactly those entries are pushed, in `required` order |
| Libraries.ResolveLibrary | mu_macro/src/lib.rs:64-75 | the loop reports the first missing name. It appends, after the existing children, the walk's resolved entries up to that point, with no rollback |
| Libraries.LeafUnchanged | mu_macro/src/lib.rs:64-75 | a library requiring nothing is left unchanged and reports nothing missing |
| Libraries.ResolveOvershoots | mu_macro/src/lib.rs:64-79 | resolving a resolved library whose requirements are resolved doubles its children, and it is no longer resolved |
| Rendering.ParseRender | mu_macro/src/lib.rs:116-126 | a library's rendering reads back as its tree of instance paths and resolved children |
| Rendering.RenderDeterminesShape | mu_macro/src/lib.rs:116-126 | the rendering parses to the library's shape, and equal renderings mean equal shapes |
| Rendering.RenderIgnoresRequired | mu_macro/src/lib.rs:116-126 | libraries with the same shape render the same: name and `required` are never rendered |
| Rendering.RenderComponent | mu_macro/src/from_macro.rs:60-74 | the output loop gives the component output, and none when a requested name has no entry |
| Rendering.ComponentOutputShapes | mu_macro/src/from_macro.rs:61-72 | the output fails exactly when a requested name has no entry. Otherwise it reads back as the component name and the shapes of the requested entries, in order |
| Resolution.RunPass | mu_macro/src/from_macro.rs:31-35 | resolving every entry against the snapshot, in any key order, gives the pass. A missing name is reported exactly when some entry's walk finds one |
| Resolution.Step | mu_macro/src/from_macro.rs:30-40 | one turn of the loop body either stops with the loop's verdict or leaves a table from which the loop ends the same way |
| Resolution.FixedPoint | mu_macro/src/from_macro.rs:29-43 | the `while` loop ends with the loop function's verdict and table. It reports a missing name exactly on `Missing`, and that name is missing from some entry |
| Resolution.PassExtends | mu_macro/src/from_macro.rs:33-35 | a pass keeps the keys and only appends children |
| Resolution.RunExtends | mu_macro/src/from_macro.rs:29-43 | the whole loop keeps the keys and only appends children |
| Resolution.RunRunsOut | mu_macro/src/from_macro.rs:29-43 | a loop whose every table would run another pass never finishes within its fuel |
| Resolution.RunResolvedMeansAllResolved | mu_macro/src/from_macro.rs:30-42 | success means every entry is resolved. An all-resolved table is returned unchanged, with no pass |
| Resolution.RunMissingNeverResolves | mu_macro/src/from_macro.rs:33-35 | a table with a missing name and an unresolved entry never resolves |
| Resolution.PassUnchangedIff | mu_macro/src/from_macro.rs:37-40 | a pass leaves the table equal to its snapshot exactly when no entry gains a child, and then the table is unchanged |
| FromMacro.BuildTableKeys | mu_macro/src/from_macro.rs:50-54 | the table's keys are exactly the lower-cased declared names |
| FromMacro.BuildTableLastWins | mu_macro/src/from_macro.rs:50-54 | the entry under a name is the last declaration with that lower-cased name |
| FromMacro.BuildTableValues | mu_macro/src/from_macro.rs:50-54 | every entry is one of the declarations |
| FromMacro.FullyDescribed.constructor | mu_macro/src/from_macro.rs:46-57 | the parsed component and the table built from the declarations |
| FromMacro.FullyDescribed.Resolve | mu_macro/src/from_macro.rs:29-43 | the new table and verdict are the loop's. A missing name is reported exactly on `Missing` |
| FromMacro.FullyDescribed.ToTokens | mu_macro/src/from_macro.rs:60-74 | the output is the component output of the current table |
| FromMacro.Expand | mu_macro/src/from_macro.rs:9-21 | the expansion succeeds exactly when the loop resolves and every requested name has an entry. The circular and out-of-fuel errors match the loop's verdicts. A reported missing name is requested or required and has no declaration |
| FromMacro.ExpandDebugPrint | mu_macro/src/from_macro.rs:95-108 | `MyDriver<DebugLib>; DebugLib=DebugLibBase<PrintLib>; PrintLib=PrintLibBase;` expands to `MyDriver<DebugLibBase<PrintLibBase>>` |
| FromMacro.ExpandSharedPrint | mu_macro/src/from_macro.rs:111-125 | a print library shared by two libraries is rendered under both |
| FromPath.ConfigSource | mu_macro/src/from_path.rs:84-105 | `path`/`Path` name a file and `env`/`Env` an environment variable. Any other keyword fails with "Expected 'Path' or 'Env' keyword" |
| FromPath.PathDescribed.constructor | mu_macro/src/from_path.rs:112-116 | the parsed component, the configuration, and an empty table |
| FromPath.PathDescribed.RegisterDependencies | mu_macro/src/from_path.rs:69-81 | a name already in the table is skipped, so the first registration wins. Otherwise the library is filed under its lower-cased name and existing entries are kept. The new keys are exactly those of the returned registration order. The order starts with the library's key, and each later key is the instance of a requirement of a key listed before it, so nothing unreachable from the library is registered. On success every new entry has each requirement's instance, in the same scope, registered too. Every other new entry is filed under its own lower-cased name and is the parse of an instance the configuration holds in that scope. A reported missing name is a requirement of a registered entry with no instance in the scope. A reported bad declaration is the name of an instance, required by a registered entry, whose requirement list does not parse. When every instance of the scope parses and has its requirements in the scope, and so does the library, registration does not fail |
| FromPath.PathDescribed.RegisterAll | mu_macro/src/from_path.rs:48-51 | the requested instances are registered in turn and existing entries are kept. The new keys are exactly those of the returned order, and each is a requested instance's key or the instance of a requirement of a key listed before it. On success every requested instance is registered with its requirements closed. A reported missing name is a requirement of a registered entry with no instance in the scope. A reported bad declaration names an instance, requested or required by a registered entry, whose requirement list does not parse. When every instance of the scope parses and has its requirements in the scope, it does not fail |
| FromPath.PathDescribed.Resolve | mu_macro/src/from_path.rs:38-67 | fails with ComponentNotFound exactly when the component has no scope. A reported missing library has no instance in the component's scope and is requested or required by a registered entry. A reported bad declaration names an instance of the scope, requested or required by a registered entry, whose requirement list does not parse. When the scope's instances all parse with their requirements in the scope and every requested library has an instance, the only possible failure is the resolution loop's verdict. When it does not fail before the loop, every requested instance is registered with its requirements closed, every entry added to the starting table is the parse of an instance the configuration holds in the component's scope, and the added keys are exactly those of the registration order, each one requested or the instance of a requirement of a key listed earlier. The table and verdict are the loop's on the registered table, and success means all resolved. The table keeps only names of the configuration's instances |
| FromPath.PathDescribed.ToTokens | mu_macro/src/from_path.rs:120-134 | the output is the component output of the current table |
| Chain.ChainPass | mu_macro/src/lib.rs:64-69 | on the chain A→B→C each pass hands B another copy of C, and A gains B only on the pass after which B has exactly one child |
| Chain.ChainNeverResolves | mu_macro/src/from_macro.rs:29-43 | the chain's table never resolves and is never reported circular, whatever the fuel |
| Chain.ChainDeclarations | mu_macro/src/from_macro.rs:50-54 | the three declarations build the chain's table |
| Chain.ChainHasNoExpansion | mu_macro/src/from_macro.rs:9-21 | `MyDriver<A>` over the chain has no expansion |
| Chain.MutualIsCircular | mu_macro/src/from_macro.rs:37-40 | two libraries requiring each other are reported circular on the first pass, with the table unchanged |
| Chain.ChainSettles | mu_macro/src/lib.rs:64-79 | under the corrected pass the chain resolves, and every entry holds the entries of its requirements |
| Settling.SettleEntry | mu_macro/src/lib.rs:64-75 | corrected `resolve`: a resolved library is left alone. An unresolved one gets all its children at once when every requirement is resolved, otherwise nothing |
| Settling.SettlePassShrinks | mu_macro/src/from_macro.rs:31-35 | a corrected pass keeps the keys and never unresolves an entry |
| Settling.SettleUnchangedIff | mu_macro/src/from_macro.rs:37-40 | a corrected pass that resolves nothing leaves the table as it was |
| Settling.Settle | mu_macro/src/from_macro.rs:29-43 | the corrected loop needs no fuel. It keeps the keys, succeeds only with every entry resolved, and reports a missing name exactly when one is missing |
| Settling.SettleAligned | mu_macro/src/lib.rs:64-79 | the corrected loop keeps every resolved entry holding exactly its requirements' resolved entries, in order |
| Settling.SettleResolvesRanked | mu_macro/src/from_macro.rs:29-43 | the corrected loop resolves every acyclic table with no missing name |
| RingLog.PendingOf | RustPkg2/src/library/ring_log.rs:92-95 | the drained bytes number the forward distance from the read index to the write index |
| RingLog.PendingSlots | RustPkg2/src/library/ring_log.rs:92-95 | drained byte i is the slot i steps after the read index, wrapping at the end of the array |
| RingLog.NextIsMod | RustPkg2/src/library/ring_log.rs:42 | the step-by-one successor of an index is the index plus one modulo the capacity |
| RingLog.ReadPops | RustPkg2/src/library/ring_log.rs:40-44 | a read takes the oldest pending byte, and the rest stay pending in order |
| RingLog.WriteAppends | RustPkg2/src/library/ring_log.rs:35-38 | a write into a buffer with room appends the byte to the pending bytes |
| RingLog.WriteOverruns | RustPkg2/src/library/ring_log.rs:35-38 | a write into the last free slot brings the write index onto the read index, and every pending byte is lost |
| RingLog.AdvanceIsMod | RustPkg2/src/library/ring_log.rs:37 | k single-step advances move an index by k modulo the capacity |
| RingLog.LogAppends | RustPkg2/src/library/ring_log.rs:78-80 | writing a message that fits in the free slots appends it to the pending bytes |
| RingLog.OverrunKeepsTail | RustPkg2/src/library/ring_log.rs:78-80 | from an empty buffer, a message of at least the capacity (under twice it) leaves only its bytes past the capacity pending |
| RingLog.FullLapLosesAll | RustPkg2/src/library/ring_log.rs:35-38 | writing exactly the capacity into an empty buffer brings the write index back and leaves nothing pending |
| RingLog.Chars | RustPkg2/src/library/ring_log.rs:94 | each byte goes to the serial port as the character with the same code |
| RingLog.RingBuffer.constructor | RustPkg2/src/library/ring_log.rs:27-33 | every slot zero, both indices at 0, nothing pending |
| RingLog.RingBuffer.Write | RustPkg2/src/library/ring_log.rs:35-38 | the byte is stored at the write index and no other slot changes. The write index advances modulo N and the read index is unchanged |
| RingLog.RingBuffer.Read | RustPkg2/src/library/ring_log.rs:40-44 | returns the slot at the read index and advances it modulo N. The slots and the write index are unchanged |
| RingLog.RingBuffer.WriteAll | RustPkg2/src/library/ring_log.rs:78-80 | the write loop leaves the slots the byte-by-byte writes specify. The write index moves by the message length modulo N |
| RingLog.RingBuffer.Flush | RustPkg2/src/library/ring_log.rs:86-99 | emits the banner and then exactly the pending bytes in FIFO order. It ends with the read index at the write index |
| RingLog.RingBuffer.Log | RustPkg2/src/library/ring_log.rs:73-84 | a message that fits comes out after everything already pending, and the buffer is empty afterwards |
| RingLog.NewLogger | RustPkg2/src/library/ring_log.rs:53-58 | the logger's buffer holds 1024 slots, with nothing pending |

## Left out

- Text.Lower: lowers ASCII letters only. Rust's `to_lowercase` is Unicode-aware; identifiers and configuration keys outside ASCII are not modelled.
- The syn/quote machinery (`ParseStream`, `TokenStream`, `PatPath`) is not modelled. Parse results are records built from their parts, and generated code is a list of `Token`s with no spacing or spans.
- Reading the configuration file, the environment variable and the TOML text is outside the model. `component_from_path!` receives the configuration as a value, and `parse_table` receives an abstract TOML tree.
- `config.components` and the scoped `config.libraries.get(name, arch, module)` are not defined in the configuration crate. They are modelled as two finite maps, from the lower-cased component name to its scope and from (lower-cased name, scope) to an instance. No fallback order is assumed.
- FromPath.ToLibrary: the instance path in the configuration is given already split into its path and its optional requirement list. The `format!("{}={}")` text that is re-parsed is not modelled.
- Resolution.FixedPoint: the source's `while` loop need not end (see "## Findings"). The model runs at most `fuel` passes and reports `OutOfFuel` after that. The same holds for FromMacro.FullyDescribed.Resolve, FromMacro.Expand and FromPath.PathDescribed.Resolve.
- Resolution.RunPass: the order in which `values_mut()` visits entries is a `HashMap` order. The model picks any remaining key. The result does not depend on the order, except which missing name is reported when several entries miss one.
- FromPath.PathDescribed.Resolve: each `unwrap` and `panic!` (component without scope, missing instance, unparsable path, missing name, circular dependency) is a `Failure` result rather than a compile-time panic.
- ConfigTypes.ArchitectureFrom: the error text is a fixed string without the `{:?}` rendering of the offending value. The same holds for ConfigTypes.ModuleFrom.
- Config.LibraryInstances.ParseTable: the `println!` diagnostics for module tables and unexpected values are not modelled. Table entries are visited in the order the TOML tree gives them.
- The `Debug` formatting of libraries is not modelled. The "Library X not found" message is modelled by the name it carries.
- RingLog.RingBuffer.constructor: requires a nonzero capacity. With N = 0 the source's first `write` indexes out of bounds.
- RingLog.RingBuffer.Log: takes the already formatted message bytes. `format!`, the `log` crate and the level filter are not modelled.
- The locks and interrupts around the ring buffer are not modelled (`try_lock` on the buffer and the serial port, `without_interrupts`, the serial port's own `expect`). The model assumes every lock is taken, as in a single-threaded run.
- `DebugLib::init` (registering the logger) is foreign-call wiring and is not modelled.

## Findings

| source | as written | input that shows it | evidently intended | confidence | as-written member | corrected member |
|---|---|---|---|---|---|---|
| mu_macro/src/lib.rs:64-69 | `resolve` runs on every entry on every pass with no `is_resolved` guard, so a resolved library is handed its children again, grows past its requirements and never counts as resolved again; the loop in mu_macro/src/from_macro.rs:29-43 then neither finishes nor reports a cycle | `component!(MyDriver<A>; A=ABase<B>; B=BBase<C>; C=CBase;)` | a library is resolved once, with all its children, and the expansion is `MyDriver<ABase<BBase<CBase>>>`; every acyclic table resolves | not executed | Chain.ChainNeverResolves | Settling.SettleResolvesRanked |
