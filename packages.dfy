/** The Poetry package metadata the translator reads, and the dependency
    groups it walks (`Uvifyer._dep_groups`, `Uvifyer._get_pep508_deps`). */
module Packages {
  import opened Wrappers
  import opened Dicts
  import opened Toml

  /** The name of the group of unconditional runtime dependencies. */
  const MAIN_GROUP: string := "main"

  /** A dependency: its canonical name, its PEP 508 rendering and the
      custom package index it is pinned to, if any. */
  datatype Dependency = Dependency(name: string, pep508: string, source: Option<string>)

  datatype DependencyGroup = DependencyGroup(name: string, dependencies: seq<Dependency>)

  /** The package as poetry-core presents it; version, python constraint
      and readme are already rendered as text, the readme relative to the
      project root. */
  datatype Package = Package(
    name: string,
    version: string,
    description: string,
    pythonConstraint: string,
    readme: Option<string>,
    authors: seq<string>,
    maintainers: seq<string>,
    groups: seq<DependencyGroup>)

  /** The names the package reports for its dependency groups, in order. */
  function GroupNames(pkg: Package): seq<string>
  {
    seq(|pkg.groups|, i requires 0 <= i < |pkg.groups| => pkg.groups[i].name)
  }

  /** `if dep.source_name:` -- a source is recorded only when it is a
      non-empty name. */
  predicate HasSource(dep: Dependency)
    ensures HasSource(dep) <==> dep.source.Some? && Truthy(Str(dep.source.value))
  {
    dep.source.Some? && dep.source.value != ""
  }

  /** `_dep_groups`: a dict from group name to the not-yet-started
      generator of that group's PEP 508 strings. A generator is
      represented by the dependencies it will walk when consumed. */
  function DepGroups(pkg: Package): (groups: Dict<seq<Dependency>>)
    ensures Keys(groups) == GroupNames(pkg)
    ensures Distinct(GroupNames(pkg)) ==>
      forall i :: 0 <= i < |pkg.groups| ==>
        Get(groups, pkg.groups[i].name) == Some(pkg.groups[i].dependencies)
  {
    var groups := seq(|pkg.groups|, i requires 0 <= i < |pkg.groups| =>
      (pkg.groups[i].name, pkg.groups[i].dependencies));
    assert Keys(groups) == GroupNames(pkg);
    GetDistinct(groups);
    assert forall i :: 0 <= i < |pkg.groups| ==> groups[i].0 == pkg.groups[i].name;
    groups
  }

  /** The strings a fully consumed generator yields. */
  function Pep508Strings(deps: seq<Dependency>): (ss: seq<string>)
    ensures |ss| == |deps|
    ensures forall i :: 0 <= i < |deps| ==> ss[i] == deps[i].pep508
  {
    if deps == [] then []
    else Pep508Strings(deps[..|deps| - 1]) + [deps[|deps| - 1].pep508]
  }

  /** What a fully consumed generator has written into `package_sources`,
      starting from `sources`: one write per sourced dependency, in order. */
  function RecordSources(sources: map<string, string>, deps: seq<Dependency>): (r: map<string, string>)
    ensures sources.Keys <= r.Keys
    ensures forall i :: 0 <= i < |deps| && HasSource(deps[i]) ==> deps[i].name in r
  {
    if deps == [] then sources
    else
      var before := RecordSources(sources, deps[..|deps| - 1]);
      var dep := deps[|deps| - 1];
      if HasSource(dep) then before[dep.name := dep.source.value] else before
  }

  /** The last sourced dependency of a name decides its entry. */
  lemma {:induction false} RecordSourcesLastWins(sources: map<string, string>, deps: seq<Dependency>, i: nat)
    requires i < |deps| && HasSource(deps[i])
    requires forall j :: i < j < |deps| && deps[j].name == deps[i].name ==> !HasSource(deps[j])
    ensures deps[i].name in RecordSources(sources, deps)
    ensures RecordSources(sources, deps)[deps[i].name] == deps[i].source.value
  {
    var init := deps[..|deps| - 1];
    if i < |deps| - 1 {
      assert init[i] == deps[i];
      assert forall j :: i < j < |init| ==> init[j] == deps[j];
      RecordSourcesLastWins(sources, init, i);
    }
  }

  /** A name with no sourced dependency keeps whatever entry it had. */
  lemma {:induction false} RecordSourcesUntouched(sources: map<string, string>, deps: seq<Dependency>, k: string)
    requires forall i :: 0 <= i < |deps| && deps[i].name == k ==> !HasSource(deps[i])
    ensures k in RecordSources(sources, deps) <==> k in sources
    ensures k in sources ==> RecordSources(sources, deps)[k] == sources[k]
  {
    if deps != [] {
      var init := deps[..|deps| - 1];
      assert forall i :: 0 <= i < |init| ==> init[i] == deps[i];
      RecordSourcesUntouched(sources, init, k);
    }
  }

  /** Only sourced dependencies add entries. */
  lemma {:induction false} RecordSourcesKeys(sources: map<string, string>, deps: seq<Dependency>)
    ensures forall x :: x in RecordSources(sources, deps) ==>
      x in sources || exists i :: 0 <= i < |deps| && deps[i].name == x && HasSource(deps[i])
  {
    if deps != [] {
      var init := deps[..|deps| - 1];
      RecordSourcesKeys(sources, init);
      assert forall i :: 0 <= i < |init| ==> init[i] == deps[i];
    }
  }
}
