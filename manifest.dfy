/**
  The two manifest edits of the promotion tool (tool/src/main.rs:246-285):
  the copied crate's `package.name` becomes the new migration version, and
  the alpha crate depends on the new crate instead of the previous one.

  A parsed `Cargo.toml` is a table of TOML values. Indexing a TOML value
  with `[key]` for writing fails ("index not found") when the value is not a
  table or has no such key; the tool unwraps every step, so each failure
  aborts the promotion.
*/
module Manifest {
  import opened Wrappers

  datatype TomlValue =
    | Str(s: string)
    | Table(entries: map<string, TomlValue>)
    /** Any other TOML value (integer, array, ...), which these edits never inspect. */
    | Other(repr: string)

  type Document = map<string, TomlValue>

  datatype ManifestError =
    | IndexNotFound(key: string)
    | NotATable(key: string)

  /** What `manifest["package"]["name"]` reads, if it can be read. */
  function PackageName(doc: Document): Option<TomlValue> {
    if "package" in doc && doc["package"].Table? && "name" in doc["package"].entries then
      Some(doc["package"].entries["name"])
    else None
  }

  /** The entry `key` of the `dependencies` table, if there is one. */
  function Dependency(doc: Document, key: string): Option<TomlValue> {
    if "dependencies" in doc && doc["dependencies"].Table? && key in doc["dependencies"].entries then
      Some(doc["dependencies"].entries[key])
    else None
  }

  /** The inline table `{ path = "<path>" }`. */
  function PathDependency(path: string): TomlValue {
    Table(map["path" := Str(path)])
  }

  /**
    `cargo_toml["package"]["name"] = version`: overwrite the name of the
    package with a string, whatever it held before.
  */
  function RenamePackage(doc: Document, version: string): (r: Result<Document, ManifestError>)
    ensures r.Success? <==> PackageName(doc).Some?
    ensures r.Failure? ==> r.error == IndexNotFound(if "package" in doc then "name" else "package")
    ensures r.Success? ==> PackageName(r.value) == Some(Str(version))
    // nothing but the name changes
    ensures r.Success? ==> r.value.Keys == doc.Keys
    ensures r.Success? ==> forall k :: k in doc && k != "package" ==> r.value[k] == doc[k]
    ensures r.Success? ==> r.value["package"].Table? && r.value["package"].entries.Keys == doc["package"].entries.Keys
    ensures r.Success? ==> forall k :: k in doc["package"].entries && k != "name" ==>
      r.value["package"].entries[k] == doc["package"].entries[k]
  {
    if "package" !in doc then Failure(IndexNotFound("package"))
    else
      var package := doc["package"];
      if !package.Table? || "name" !in package.entries then Failure(IndexNotFound("name"))
      else Success(doc["package" := Table(package.entries["name" := Str(version)])])
  }

  /**
    Insert `version = { path = "<path>" }` into the `dependencies` table,
    then remove the entry `prev`.
  */
  function SwapDependency(doc: Document, version: string, prev: string, path: string): (r: Result<Document, ManifestError>)
    ensures r.Success? <==> "dependencies" in doc && doc["dependencies"].Table?
    ensures r.Failure? ==> r.error == if "dependencies" in doc then NotATable("dependencies") else IndexNotFound("dependencies")
    ensures r.Success? ==> r.value.Keys == doc.Keys && r.value["dependencies"].Table?
    ensures r.Success? ==> forall k :: k in doc && k != "dependencies" ==> r.value[k] == doc[k]
    // the previous crate is gone; the new crate is there unless it has the previous crate's name
    ensures r.Success? ==> Dependency(r.value, prev) == None
    ensures r.Success? ==> Dependency(r.value, version) == if version == prev then None else Some(PathDependency(path))
    // every other dependency is left as it was
    ensures r.Success? ==> forall k :: k != version && k != prev ==> Dependency(r.value, k) == Dependency(doc, k)
  {
    if "dependencies" !in doc then Failure(IndexNotFound("dependencies"))
    else
      var deps := doc["dependencies"];
      if !deps.Table? then Failure(NotATable("dependencies"))
      else
        var inserted := deps.entries[version := PathDependency(path)];
        Success(doc["dependencies" := Table(inserted - {prev})])
  }

  /** Renaming twice to the same version is renaming once. */
  lemma RenamePackageIdempotent(doc: Document, version: string)
    requires RenamePackage(doc, version).Success?
    ensures RenamePackage(RenamePackage(doc, version).value, version) == RenamePackage(doc, version)
  {
    var once := RenamePackage(doc, version).value;
    var package := once["package"].entries;
    assert package["name" := Str(version)] == package;
    assert once["package" := Table(package)] == once;
  }

  /** Swapping the dependency twice is swapping it once. */
  lemma SwapDependencyIdempotent(doc: Document, version: string, prev: string, path: string)
    requires SwapDependency(doc, version, prev, path).Success?
    ensures SwapDependency(SwapDependency(doc, version, prev, path).value, version, prev, path)
         == SwapDependency(doc, version, prev, path)
  {
    var once := SwapDependency(doc, version, prev, path).value;
    var deps := once["dependencies"].entries;
    assert deps[version := PathDependency(path)] - {prev} == deps;
    assert once["dependencies" := Table(deps)] == once;
  }

  /** A parsed `Cargo.toml`, edited in place through `[key]` writes and table methods. */
  class TomlDocument {
    var root: Document

    constructor(parsed: Document)
      ensures root == parsed
    {
      root := parsed;
    }

    /** `cargo_toml["package"]["name"] = toml::Value::String(version)`. */
    method SetPackageName(version: string) returns (r: Outcome<ManifestError>)
      modifies this
      ensures r.Pass? <==> RenamePackage(old(root), version).Success?
      ensures r.Pass? ==> root == RenamePackage(old(root), version).value
      ensures r.Fail? ==> r.error == RenamePackage(old(root), version).error && root == old(root)
    {
      if "package" !in root {
        return Fail(IndexNotFound("package"));
      }
      var package := root["package"];
      if !package.Table? || "name" !in package.entries {
        return Fail(IndexNotFound("name"));
      }
      root := root["package" := Table(package.entries["name" := Str(version)])];
      r := Pass;
    }

    /**
      `dependencies.insert(version, { path })` on the table unwrapped from
      `alpha_cargo_toml["dependencies"]`, then `deps.remove(prev)` on the
      same table.
    */
    method ReplaceDependency(version: string, prev: string, path: string) returns (r: Outcome<ManifestError>)
      modifies this
      ensures r.Pass? <==> SwapDependency(old(root), version, prev, path).Success?
      ensures r.Pass? ==> root == SwapDependency(old(root), version, prev, path).value
      ensures r.Fail? ==> r.error == SwapDependency(old(root), version, prev, path).error && root == old(root)
    {
      if "dependencies" !in root {
        return Fail(IndexNotFound("dependencies"));
      }
      if !root["dependencies"].Table? {
        return Fail(NotATable("dependencies"));
      }
      var deps := root["dependencies"].entries;
      deps := deps[version := PathDependency(path)];
      root := root["dependencies" := Table(deps)];
      // the second lookup, `get_mut("dependencies").and_then(as_table_mut)`, finds the same table
      if "dependencies" in root && root["dependencies"].Table? {
        var current := root["dependencies"].entries;
        root := root["dependencies" := Table(current - {prev})];
      }
      r := Pass;
    }
  }
}
