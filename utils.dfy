/**
  The conversion contract of the `migration_utils` crate: a trait
  `MigrateInto<T>` with the single method `fn migrate(self) -> T`, and the
  reflexive instances a macro stamps out for a fixed list of leaf types.

  Dafny has no trait resolution, so an instance is named by its pair of types
  (`impl MigrateInto<target> for source`), `Resolve` finds the instance a call
  dispatches to, and `Migrate` runs it: it takes the receiver by value and
  returns a value of the target type.
*/
module MigrationUtils {
  import opened Wrappers

  /** `impl MigrateInto<target> for source`. */
  datatype Instance = Instance(source: string, target: string)

  /** The types listed in the `impl_migrate_into_self!` invocation, in order. */
  const ReflexiveTypes: seq<string> := ["f64", "i64", "u64", "bool", "Option<u64>", "Vec<bool>"]

  /** What the macro expands to: one instance `MigrateInto<t> for t` per listed type. */
  function Instances(): (r: seq<Instance>)
    ensures |r| == |ReflexiveTypes|
    ensures forall i :: 0 <= i < |r| ==> r[i].source == r[i].target == ReflexiveTypes[i]
  {
    seq(|ReflexiveTypes|, i requires 0 <= i < |ReflexiveTypes| => Instance(ReflexiveTypes[i], ReflexiveTypes[i]))
  }

  /** The instance the crate provides for a receiver of type `source` converted to `target`, if any. */
  function Resolve(source: string, target: string): (r: Option<Instance>)
    ensures r.Some? <==> source == target && source in ReflexiveTypes
    ensures r.Some? ==> r.value == Instance(source, target)
  {
    if Instance(source, target) in Instances() then Some(Instance(source, target)) else None
  }

  /**
    `<source as MigrateInto<target>>::migrate(self)`: None when the crate
    provides no such instance; otherwise the reflexive body, which hands
    back its receiver.
  */
  function Migrate<V>(source: string, target: string, self: V): (r: Option<V>)
    ensures r.Some? <==> source == target && source in ReflexiveTypes
    ensures r.Some? ==> r.value == self
  {
    match Resolve(source, target)
    case Some(_) => Some(self)
    case None => None
  }

  /** Every instance of the crate converts a type into itself. */
  lemma {:induction false} OnlyReflexiveInstances(source: string, target: string)
    requires Resolve(source, target).Some?
    ensures source == target
  {
    var k :| 0 <= k < |Instances()| && Instances()[k] == Instance(source, target);
  }

  /** `Option<f64>` (a field type of the v2 crate) has no reflexive instance. */
  lemma OptionF64HasNoInstance()
    ensures Resolve("Option<f64>", "Option<f64>").None?
  {
    assert "Option<f64>" != "Option<u64>";
    assert "Option<f64>" !in ReflexiveTypes;
  }
}
