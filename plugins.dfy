/** The translator object itself (`Uvifyer`), with the state it changes:
    its `package_sources` side table and the Poetry project's document. */
module Plugins {
  import opened Wrappers
  import opened Dicts
  import opened Toml
  import opened Persons
  import opened Packages
  import opened Projects
  import opened Documents

  /** Poetry's `pyproject` object; `eject` rewrites its document in place. */
  class PyProject {
    var data: Document

    constructor (data: Document)
      ensures this.data == data
    {
      this.data := data;
    }
  }

  class Uvifyer {
    /** `poetry.package`. */
    const pkg: Package
    /** `poetry.local_config`, the `[tool.poetry]` table as Poetry loaded it. */
    const localConfig: Dict<Value>
    /** `poetry.pyproject`. */
    const pyproject: PyProject
    /** Dependency name to custom package index, filled while generators run. */
    var packageSources: map<string, string>

    constructor (pkg: Package, localConfig: Dict<Value>, pyproject: PyProject)
      ensures this.pkg == pkg && this.localConfig == localConfig && this.pyproject == pyproject
      ensures packageSources == map[]
    {
      this.pkg := pkg;
      this.localConfig := localConfig;
      this.pyproject := pyproject;
      packageSources := map[];
    }

    /** Running one `_get_pep508_deps` generator to exhaustion: yields each
        dependency's PEP 508 string in order and records the source of
        each sourced dependency, a later one overwriting an earlier one. */
    method ConsumeDeps(deps: seq<Dependency>) returns (strings: seq<string>)
      modifies this`packageSources
      ensures strings == Pep508Strings(deps)
      ensures packageSources == RecordSources(old(packageSources), deps)
    {
      strings := [];
      var i := 0;
      while i < |deps|
        invariant 0 <= i <= |deps|
        invariant strings == Pep508Strings(deps[..i])
        invariant packageSources == RecordSources(old(packageSources), deps[..i])
      {
        var dep := deps[i];
        if HasSource(dep) {
          packageSources := packageSources[dep.name := dep.source.value];
        }
        strings := strings + [dep.pep508];
        assert deps[..i + 1][..i] == deps[..i];
        i := i + 1;
      }
      assert deps[..i] == deps;
    }

    /** `project_fragment`: only the main group's generator is consumed, so
        only main dependencies reach `package_sources`, and only when the
        main group exists. */
    method ProjectFragment() returns (r: Result<Dict<Value>>)
      modifies this`packageSources
      ensures r == ProjectFragmentOf(pkg, localConfig)
      ensures packageSources ==
        if MAIN_GROUP in GroupNames(pkg) then RecordSources(old(packageSources), MainDependencies(pkg))
        else old(packageSources)
    {
      var groups := DepGroups(pkg);
      var popped := Pop(groups, MAIN_GROUP);
      PopMainGroup(pkg);
      if popped.Err? {
        return Err(popped.error);
      }
      var mainGroup := popped.value.0;
      groups := popped.value.1;
      var dependencies := ConsumeDeps(mainGroup);
      var project := [
        ("name", Str(pkg.name)),
        ("version", Str(pkg.version)),
        ("description", Str(pkg.description)),
        ("requires-python", Str(pkg.pythonConstraint)),
        ("dependencies", StrArray(dependencies))];
      assert project == RequiredEntries(pkg);
      ghost var required := project;
      if pkg.readme.Some? {
        project := Set(project, "readme", Str(pkg.readme.value));
      }
      ghost var withReadme := project;
      var authors: seq<Person> := [];
      if pkg.authors != [] {
        var parsed := ParsePersonEntries(pkg.authors);
        if parsed.Err? {
          return Err(parsed.error);
        }
        authors := parsed.value;
        project := Set(project, "authors", PersonArray(authors));
      }
      assert ParsePersonEntries(pkg.authors) == Ok(authors);
      assert project == SetIf(withReadme, pkg.authors != [], "authors", PersonArray(authors));
      ghost var withAuthors := project;
      var maintainers: seq<Person> := [];
      if pkg.maintainers != [] {
        var parsed := ParsePersonEntries(pkg.maintainers);
        if parsed.Err? {
          return Err(parsed.error);
        }
        maintainers := parsed.value;
        project := Set(project, "maintainers", PersonArray(maintainers));
      }
      assert ParsePersonEntries(pkg.maintainers) == Ok(maintainers);
      assert project == SetIf(withAuthors, pkg.maintainers != [], "maintainers", PersonArray(maintainers));
      ghost var withMaintainers := project;
      if groups != [] {
        project := Set(project, "optional-dependencies", StrArray(Keys(groups)));
      }
      assert project == SetIf(withMaintainers, OptionalGroupNames(pkg) != [], "optional-dependencies",
                              StrArray(OptionalGroupNames(pkg)));
      var scripts := Get(localConfig, "scripts");
      ghost var withOptional := project;
      if scripts.Some? && Truthy(scripts.value) {
        project := Set(project, "scripts", scripts.value);
      }
      AssembleBySetting(pkg, localConfig, authors, maintainers, scripts,
                        required, withReadme, withAuthors, withMaintainers, withOptional, project);
      assert project == Assemble(pkg, localConfig, authors, maintainers);
      return Ok(project);
    }

    /** `eject`: drop `tool.poetry`, drop `build-system`, set `project`,
        set `build-system` again. The document is changed in place, step
        by step, so a failure leaves the removals already made. */
    method Eject() returns (r: Result<Document>)
      modifies this`packageSources, pyproject`data
      ensures r == Rewrite(old(pyproject.data), ProjectFragmentOf(pkg, localConfig))
      ensures r.Ok? ==> pyproject.data == r.value
      ensures r.Err? ==> pyproject.data == Stripped(old(pyproject.data))
      ensures packageSources ==
        if DropPoetry(old(pyproject.data)).Ok? && DropBuildSystem(DropPoetry(old(pyproject.data)).value).Ok?
           && MAIN_GROUP in GroupNames(pkg)
        then RecordSources(old(packageSources), MainDependencies(pkg))
        else old(packageSources)
    {
      var tool := Get(pyproject.data, "tool");
      if tool.None? {
        return Err(KeyError("tool"));
      }
      if !tool.value.Table? {
        return Err(NotATable("tool"));
      }
      var poetry := Pop(tool.value.entries, "poetry");
      if poetry.Err? {
        return Err(poetry.error);
      }
      pyproject.data := Set(pyproject.data, "tool", Table(poetry.value.1));
      var buildSystem := Pop(pyproject.data, "build-system");
      if buildSystem.Err? {
        return Err(buildSystem.error);
      }
      pyproject.data := buildSystem.value.1;
      var project := ProjectFragment();
      if project.Err? {
        return Err(project.error);
      }
      pyproject.data := Set(pyproject.data, "project", Table(project.value));
      pyproject.data := Set(pyproject.data, "build-system", Table(BuildSystemFragment()));
      return Ok(pyproject.data);
    }
  }
}
