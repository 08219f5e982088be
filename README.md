# Migration promotion tool, modelled in Dafny

The repository keeps one Rust crate per released version of its data types
(`v2`, `v3`, `v5`, ...). Development happens in an "alpha" crate, which
converts values of the previous version (`use vN as prev;`) into its own types
through the `MigrateInto<T>` trait of the `migration_utils` crate. The
promotion tool freezes alpha as a new numbered crate and starts the next
round:

- it renames the copy's package to the new version;
- it makes alpha depend on the new crate instead of the previous one, by a
  path relative to alpha;
- in each `.rs` file of alpha, it resets every impl whose trait path ends in
  `MigrateInto<X>`, with `X` a plain identifier naming a struct or enum
  declared in that same file, whatever the impl's self type, to the trivial,
  generated conversion: each field is converted with `.migrate()`. Impls
  whose `X` is declared in another file are left untouched;
- it points the `prev` alias at the new crate.

This project models that core. The table below says where each part lives.

| module (file) | what it models |
|---|---|
| `Wrappers` (wrappers.dfy) | `Option`, `Result` and `Outcome` with failure propagation |
| `RustSyntax` (syntax.dfy) | the `syn` items the tool reads and writes: structs, enums, impls, `use` items; the generated `migrate` bodies as a small syntax tree |
| `MigrationUtils` (utils.dfy) | the `MigrateInto<T>` contract and the six reflexive instances |
| `Synthesis` (synthesis.dfy) | `generate_migrate_into` and `generate_migrate_into_enum` |
| `Reset` (reset.dfy) | the pass as functions on item sequences; the visitors `ItemVisitor` and `MigrationReset` as classes whose methods are proved to compute those functions; `reset_migration_for_file` up to the unparse |
| `IdentityMigration` (identity.dfy) | what a reset module does at run time: evaluation of the generated bodies, and the theorem that `migrate` then returns its argument unchanged |
| `AliasRewrite` (alias.dfy) | the `use .* as prev;` replacement |
| `RelativePaths` (paths.dfy) | `relative_path` as a method with its loops, proved against a specification, and a path resolver to check it against |
| `Manifest` (manifest.dfy) | the `Cargo.toml` edits, as a document class whose methods are proved to compute pure edit functions |

Failures that the Rust code turns into panics become error values:
- `generate_migrate_into` on a tuple struct with fields produces an impl that does not parse. The model gives `UnnamedFields`, and the whole file reset fails with it.
- The TOML `[key]` writes fail with "index not found", and `as_table_mut().unwrap()` fails on a value that is not a table. The model gives `IndexNotFound` and `NotATable`.

## Model

| member | source | states |
|---|---|---|
| MigrationUtils.Instances | migrations/utils/src/lib.rs:6-18 | the macro stamps out exactly one instance `MigrateInto<t> for t` per listed type, in order |
| MigrationUtils.Resolve | migrations/utils/src/lib.rs:5-18 | an instance exists iff source and target are the same type and that type is one of f64, i64, u64, bool, `Option<u64>`, `Vec<bool>` |
| MigrationUtils.Migrate | migrations/utils/src/lib.rs:9-13 | `migrate` consumes its receiver and returns a target value; the call resolves iff an instance exists, and then the result is the receiver itself |
| MigrationUtils.OnlyReflexiveInstances | migrations/utils/src/lib.rs:18 | every instance the crate provides converts a type into itself |
| MigrationUtils.OptionF64HasNoInstance | migrations/v2/src/lib.rs:18 | the leaf type `Option<f64>` has no reflexive instance |
| Synthesis.GenerateMigrateInto | tool/src/main.rs:49-67 | `impl MigrateInto<S> for prev::S` returning `S`, with one assignment per declared field, in declaration order, each `f: self.f.migrate()`; fails exactly for a tuple struct with fields |
| Synthesis.GenerateMigrateIntoEnum | tool/src/main.rs:69-109 | `impl MigrateInto<E> for prev::E` with `match self` and exactly one arm per variant, in order. A named arm binds and rebuilds the same field names from their bindings. A positional arm of arity n binds `field0..field{n-1}` and rebuilds with n arguments. A unit variant maps to itself |
| Synthesis.DecimalStringInjective | tool/src/main.rs:85 | different indices print differently in `format_ident!("field{}", i)` |
| Synthesis.PositionalIdentsDistinct | tool/src/main.rs:84-86 | the positional binding names of a tuple-variant arm are pairwise different |
| Reset.GetIdent | tool/src/main.rs:127 | `Path::get_ident` is Some exactly for a path without leading `::`, with one segment and no arguments, and then it is that segment |
| Reset.TargetIdent | tool/src/main.rs:113-136 | the type an impl is selected for: the trait path's last segment is `MigrateInto`, and its first angle-bracketed argument is a single-identifier type path; None otherwise |
| Reset.TargetIdentOfGeneratedStruct | tool/src/main.rs:113-136 | a generated struct impl is selected for its own struct |
| Reset.TargetIdentOfGeneratedEnum | tool/src/main.rs:113-136 | a generated enum impl is selected for its own enum |
| Reset.FindStruct | tool/src/main.rs:138 | None iff no collected struct has the name; otherwise the first one that does |
| Reset.FindEnum | tool/src/main.rs:142 | None iff no collected enum has the name; otherwise the first one that does |
| Reset.FindStructFound | tool/src/main.rs:138 | the struct found is a collected one with the searched name |
| Reset.FindEnumFound | tool/src/main.rs:142 | the enum found is a collected one with the searched name |
| Reset.ResetImpl | tool/src/main.rs:112-148 | fails iff the impl is selected and the first struct of its name is a tuple struct with fields, even when an enum of that name would overwrite the result; a changed impl is always a selected one whose name is declared |
| Reset.ResetImplUsesDeclaration | tool/src/main.rs:138-145 | the enum impl wins over a struct of the same name; otherwise the struct impl is used; an impl naming no declaration is left as it is |
| Reset.ResetItem | tool/src/main.rs:111-148 | items other than impls are never changed; impls stay impls |
| Reset.ResetItems | tool/src/main.rs:165 | the walk succeeds iff every item resets, gives each item's reset in place, and reports the first failure |
| Reset.FirstFailing | tool/src/main.rs:165 | names an item whose reset fails, and is None only when every item resets |
| Reset.BeforeFirstFailing | tool/src/main.rs:165 | every item before the one named resets, so the walk in file order stops there |
| Reset.StructsOf | tool/src/main.rs:35-38 | collects exactly the structs of the file |
| Reset.EnumsOf | tool/src/main.rs:39-42 | collects exactly the enums of the file |
| Reset.ResetChangesOnlySelectedImpls | tool/src/main.rs:111-147 | a reset file differs from its input only in impls whose target names a declaration of the file; no item is added or removed |
| Reset.ResetKeepsDeclarations | tool/src/main.rs:111-147 | the reset file has the same structs and enums as its input |
| Reset.ResetImplKeepsTarget | tool/src/main.rs:138-145 | a reset impl is still selected for the same type |
| Reset.ResetImplIdempotent | tool/src/main.rs:138-145 | resetting a reset impl again gives the same impl |
| Reset.ResetIdempotent | tool/src/main.rs:151-165 | resetting an already reset file gives the same file |
| Reset.ItemVisitor.constructor | tool/src/main.rs:156-159 | a visitor starts with no structs and no enums |
| Reset.ItemVisitor.VisitItemStruct | tool/src/main.rs:35-38 | pushes the struct and leaves the enums alone |
| Reset.ItemVisitor.VisitItemEnum | tool/src/main.rs:39-42 | pushes the enum and leaves the structs alone |
| Reset.ItemVisitor.VisitFile | tool/src/main.rs:160 | after the walk the lists have grown by exactly the file's structs and enums, in file order |
| Reset.MigrationReset.constructor | tool/src/main.rs:161-164 | the reset visitor holds the collected declarations |
| Reset.MigrationReset.VisitItemImplMut | tool/src/main.rs:112-148 | overwrites the impl in place with its reset, or reports the synthesis failure; no other item of the file changes |
| Reset.MigrationReset.VisitFileMut | tool/src/main.rs:165 | the file array ends up as the functional reset of its old contents; it fails iff that reset fails, with the same error |
| Reset.ResetMigrationForFile | tool/src/main.rs:151-165 | collecting from one copy and rewriting the other in place yields the functional file reset |
| IdentityMigration.FreshImplIsGenerated | tool/src/main.rs:138-145 | in a module the reset leaves unchanged, the impl a declared type dispatches to is the generated one |
| IdentityMigration.StructIdentity | tool/src/main.rs:53-56 | the generated struct conversion returns a value equal field by field to its input |
| IdentityMigration.EnumIdentity | tool/src/main.rs:72-98 | the generated enum conversion selects the value's own variant and returns it unchanged |
| IdentityMigration.ArmIdentity | tool/src/main.rs:74-96 | an arm that keeps its variant's shape rebuilds the value it matched |
| IdentityMigration.MigrateIsIdentity | migrations/alpha/src/lib.rs:1-5 | in a fresh module whose leaf field types all have reflexive instances, `migrate` returns every well-typed value unchanged |
| IdentityMigration.ResetModuleIsIdentity | migrations/alpha/src/lib.rs:1-5 | every module the reset produces is the identity migration, given an impl per declaration and reflexive leaf types |
| AliasRewrite.MatchEnd | tool/src/main.rs:168 | the longest match from a start: ` as prev;` at the last place before the line ends |
| AliasRewrite.FindAlias | tool/src/main.rs:168-170 | the leftmost match, longest from its start, or None when the text has no match at all |
| AliasRewrite.FirstMatchUnique | tool/src/main.rs:168-170 | the leftmost-longest match is unique |
| AliasRewrite.ReplaceAlias | tool/src/main.rs:167-171 | text without a match is unchanged; otherwise only the first match becomes `use {version} as prev;` and the text around it is kept |
| AliasRewrite.AliasRoundTrip | tool/src/main.rs:167-171 | after the rewrite the first alias names the new version; a file without an alias still has none |
| AliasRewrite.ReplaceAliasTwice | tool/src/main.rs:167-171 | rewriting twice equals rewriting once with the second version |
| RelativePaths.CommonPrefixLength | tool/src/main.rs:191-193 | the paths agree on that many leading components and differ at the next one |
| RelativePaths.StartsWithAncestor | tool/src/main.rs:191-193 | an ancestor of `from` is a prefix of `to` iff it is no longer than their common prefix |
| RelativePaths.RelativePath | tool/src/main.rs:189-213 | the ancestor search and `..` loop give one `..` per component of `from` below its first k joined with `to` after its first k components, where k is the common prefix length; the result is `to` when that prefix is shorter than the lowest ancestor |
| RelativePaths.RelativePathResolves | tool/src/main.rs:189-213 | resolving the result against `from` gives back `to`, for plain paths where `to` is absolute whenever `from` is |
| RelativePaths.RelativePathToSelf | tool/src/main.rs:189-213 | from a directory to itself the path is empty |
| RelativePaths.DropCurDir | tool/src/main.rs:191-193 | dropping a leading `.` leaves a path of names after an optional root, absolute exactly when the written path is |
| RelativePaths.LeadingCurDirMisses | tool/src/main.rs:191-200 | as written, from `./a/b` to `a/c` the result is `../../../a/c`, which resolves to `./../a/c`, not to `a/c` |
| RelativePaths.RelativePathFromCurrent | tool/src/main.rs:189-213 | with both leading `.` dropped first, the result equals the tool's whenever neither path starts with `.` |
| RelativePaths.RelativePathFromCurrentResolves | tool/src/main.rs:189-213 | resolving the corrected result against `from` reaches the directory `to` names, for paths without `..`, a leading `.` allowed, where `to` is absolute whenever `from` is |
| Manifest.RenamePackage | tool/src/main.rs:252 | succeeds iff `package.name` exists, and then the name reads back as the new version; nothing else changes; the error names the missing key |
| Manifest.SwapDependency | tool/src/main.rs:261-280 | fails iff `dependencies` is missing or not a table. Otherwise the previous crate is gone and the new crate has `{ path }`, except when both names are equal: then the new entry is gone too. All other entries and keys are untouched |
| Manifest.RenamePackageIdempotent | tool/src/main.rs:252 | renaming twice to the same version is renaming once |
| Manifest.SwapDependencyIdempotent | tool/src/main.rs:261-280 | swapping the dependency twice is swapping once |
| Manifest.TomlDocument.constructor | tool/src/main.rs:247-251 | a document holds the parsed table |
| Manifest.TomlDocument.SetPackageName | tool/src/main.rs:252 | the document becomes its rename, or stays unchanged with the rename's error |
| Manifest.TomlDocument.ReplaceDependency | tool/src/main.rs:261-280 | insert then remove on the document's dependency table gives the swap, or the document stays unchanged with the swap's error |

## Left out

- File system work is not modelled: copying the crate, reading and writing files, and the `walkdir` walk over `.rs` files. The CLI (`clap`) and `println!` logging are left out too.
- Parsing and printing are not modelled: `syn::parse_file`, `quote!`/`parse_quote!` and `prettyplease::unparse`. Files are item sequences, and the generated code is a syntax tree. The alias rewrite works on text and is not composed with the unparsed output.
- Nested items are not modelled. A file is a flat sequence of items, so structs, enums and impls inside `mod` blocks or function bodies, which the visitors would also reach, are absent.
- Field types are opaque labels, so rustc's type checking is not modelled. In `IdentityMigration`, a converted field has the same label as its source, and values carry their labels.
- IdentityMigration.Convert: a hand-written impl body has no meaning in the model. Its conversion is None, so the identity theorem covers modules whose impls are all generated, as the reset leaves them.
- AliasRewrite.ReplaceAlias: requires a version without `$`. The regex crate expands `$name` in the replacement text, and that expansion is not modelled.
- RelativePaths.RelativePath: returns components; `to_string_lossy` is not modelled. Rendering can add a trailing separator after a run of `..`, which the component view does not show. The string written into the manifest is a parameter of `Manifest.SwapDependency`.
- RelativePaths.RelativePathResolves: the round trip is proved only for paths of names after an optional leading `/`. A leading `.` on one path only breaks it (see Findings, with `./migrations/alpha` and `migrations/v6`), and paths containing `..` are not covered by any round-trip lemma.
- TOML parsing and serialisation are not modelled, nor table key order. The document is a map of values, and values other than strings and tables are opaque.
- The hand-written migrations of the numbered crates and of alpha are not part of this model. They serve only as examples, such as the `Option<f64>` field.

## Findings

| source | as written | input that shows it | evidently intended | confidence | as-written member | corrected member |
|---|---|---|---|---|---|---|
| tool/src/main.rs:191-200 | ancestors of `from` are compared with `to` component by component, so a leading `.` on one path only makes the empty path the only shared ancestor, and every component of `from`, `.` included, is climbed | `--alpha-path ./migrations/alpha --output-path migrations/v6` gives `../../../migrations/v6`, which from alpha leads to `../migrations/v6` | compare the paths with the leading `.` dropped, giving `../v6` | medium, not executed | RelativePaths.LeadingCurDirMisses | RelativePaths.RelativePathFromCurrentResolves |

`RelativePaths.RelativePath` keeps the code as written. No other part of the model consumes its result: the dependency path is a parameter of `Manifest.SwapDependency`.
