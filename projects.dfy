/** What `Uvifyer.project_fragment`, `Uvifyer.build_system_fragment` and
    `Uvifyer.eject` compute, stated as functions of their inputs, and the
    properties of the PEP 621 `[project]` table and of the rewritten
    document. */
module Projects {
  import opened Wrappers
  import opened Dicts
  import opened Toml
  import opened Persons
  import opened Packages

  /** The five keys `project_fragment` always writes, in order. */
  const REQUIRED_KEYS: seq<string> := ["name", "version", "description", "requires-python", "dependencies"]

  /** `build_system_fragment`: the PEP 517 `[build-system]` table for
      hatchling, `requires` before `build-backend`. */
  function BuildSystemFragment(): (t: Dict<Value>)
    ensures Keys(t) == ["requires", "build-backend"]
    ensures Get(t, "requires") == Some(StrArray(["hatchling"]))
    ensures Get(t, "build-backend") == Some(Str("hatchling.build"))
  {
    [("requires", StrArray(["hatchling"])), ("build-backend", Str("hatchling.build"))]
  }

  /** The position of the main group among the package's groups. */
  function MainIndex(pkg: Package): (i: nat)
    requires MAIN_GROUP in GroupNames(pkg)
    ensures i < |pkg.groups| && pkg.groups[i].name == MAIN_GROUP
  {
    Find(GroupNames(pkg), MAIN_GROUP)
  }

  /** The dependencies of the main group. */
  function MainDependencies(pkg: Package): seq<Dependency>
    requires MAIN_GROUP in GroupNames(pkg)
  {
    pkg.groups[MainIndex(pkg)].dependencies
  }

  /** The names of the other groups, in order. */
  function OptionalGroupNames(pkg: Package): seq<string>
    requires MAIN_GROUP in GroupNames(pkg)
  {
    var names := GroupNames(pkg);
    var i := MainIndex(pkg);
    names[..i] + names[i + 1..]
  }

  /** `groups.pop(MAIN_GROUP)` on the package's groups: a `KeyError` when
      there is no main group, otherwise the main group's dependencies and
      the other groups, in order. */
  lemma PopMainGroup(pkg: Package)
    ensures var popped := Pop(DepGroups(pkg), MAIN_GROUP);
      && (popped.Err? <==> MAIN_GROUP !in GroupNames(pkg))
      && (popped.Err? ==> popped.error == KeyError(MAIN_GROUP))
      && (popped.Ok? ==> popped.value.0 == MainDependencies(pkg)
                         && Keys(popped.value.1) == OptionalGroupNames(pkg))
  {
    var groups := DepGroups(pkg);
    if MAIN_GROUP in GroupNames(pkg) {
      var i := Find(Keys(groups), MAIN_GROUP);
      assert i == MainIndex(pkg);
      RemoveAt(groups, i);
    }
  }

  /** The entries every fragment starts with. */
  function RequiredEntries(pkg: Package): Dict<Value>
    requires MAIN_GROUP in GroupNames(pkg)
  {
    [ ("name", Str(pkg.name)),
      ("version", Str(pkg.version)),
      ("description", Str(pkg.description)),
      ("requires-python", Str(pkg.pythonConstraint)),
      ("dependencies", StrArray(Pep508Strings(MainDependencies(pkg)))) ]
  }

  /** An entry that is written only when its condition holds. */
  function Optional(present: bool, key: string, v: Value): Dict<Value>
  {
    if present then [(key, v)] else []
  }

  /** `self.poetry.local_config.get("scripts")`, when truthy. */
  predicate HasScripts(localConfig: Dict<Value>)
  {
    Get(localConfig, "scripts").Some? && Truthy(Get(localConfig, "scripts").value)
  }

  /** The `[project]` table: the required entries, then readme, authors,
      maintainers, optional-dependencies and scripts, each only when its
      source is truthy. A missing main group is a `KeyError`; a malformed
      author, then a malformed maintainer, is an unpack error. */
  function ProjectFragmentOf(pkg: Package, localConfig: Dict<Value>): (r: Result<Dict<Value>>)
    ensures r.Err? <==> MAIN_GROUP !in GroupNames(pkg)
                        || ParsePersonEntries(pkg.authors).Err?
                        || ParsePersonEntries(pkg.maintainers).Err?
    ensures r.Err? && MAIN_GROUP in GroupNames(pkg) ==> r.error.UnpackError?
  {
    if MAIN_GROUP !in GroupNames(pkg) then Err(KeyError(MAIN_GROUP))
    else
      match ParsePersonEntries(pkg.authors)
      case Err(e) => Err(e)
      case Ok(authors) =>
        match ParsePersonEntries(pkg.maintainers)
        case Err(e) => Err(e)
        case Ok(maintainers) => Ok(Assemble(pkg, localConfig, authors, maintainers))
  }

  /** The fragment once the people are parsed. */
  function Assemble(pkg: Package, localConfig: Dict<Value>, authors: seq<Person>, maintainers: seq<Person>): Dict<Value>
    requires MAIN_GROUP in GroupNames(pkg)
  {
    var others := OptionalGroupNames(pkg);
    RequiredEntries(pkg)
    + (if pkg.readme.Some? then [("readme", Str(pkg.readme.value))] else [])
    + Optional(pkg.authors != [], "authors", PersonArray(authors))
    + Optional(pkg.maintainers != [], "maintainers", PersonArray(maintainers))
    + Optional(others != [], "optional-dependencies", StrArray(others))
    + (if HasScripts(localConfig) then [("scripts", Get(localConfig, "scripts").value)] else [])
  }

  /** The keys a fragment of this package has: the required ones, then
      each optional one whose source is truthy. */
  function FragmentKeyList(pkg: Package, localConfig: Dict<Value>): seq<string>
    requires MAIN_GROUP in GroupNames(pkg)
  {
    KeyList(pkg.readme.Some?, pkg.authors != [], pkg.maintainers != [],
            OptionalGroupNames(pkg) != [], HasScripts(localConfig))
  }

  /** The required keys, then the optional keys whose flag is set. */
  function KeyList(readme: bool, authors: bool, maintainers: bool, optional: bool, scripts: bool): seq<string>
  {
    REQUIRED_KEYS
    + (if readme then ["readme"] else [])
    + (if authors then ["authors"] else [])
    + (if maintainers then ["maintainers"] else [])
    + (if optional then ["optional-dependencies"] else [])
    + (if scripts then ["scripts"] else [])
  }

  /** `if present: d[key] = v`. */
  function SetIf(d: Dict<Value>, present: bool, key: string, v: Value): Dict<Value>
  {
    if present then Set(d, key, v) else d
  }

  /** Setting a key the table does not have yet appends it. */
  lemma SetIfAppends(d: Dict<Value>, present: bool, key: string, v: Value)
    requires key !in Keys(d)
    ensures SetIf(d, present, key, v) == d + Optional(present, key, v)
    ensures Keys(SetIf(d, present, key, v)) == Keys(d) + (if present then [key] else [])
  {
  }

  /** Turning on one more optional key, in order, appends it. */
  lemma KeyListSteps(readme: bool, authors: bool, maintainers: bool, optional: bool)
    ensures KeyList(readme, false, false, false, false) == REQUIRED_KEYS + (if readme then ["readme"] else [])
    ensures KeyList(readme, authors, false, false, false) ==
      KeyList(readme, false, false, false, false) + (if authors then ["authors"] else [])
    ensures KeyList(readme, authors, maintainers, false, false) ==
      KeyList(readme, authors, false, false, false) + (if maintainers then ["maintainers"] else [])
    ensures KeyList(readme, authors, maintainers, optional, false) ==
      KeyList(readme, authors, maintainers, false, false) + (if optional then ["optional-dependencies"] else [])
  {
    var rk: seq<string> := if readme then ["readme"] else [];
    var ak: seq<string> := if authors then ["authors"] else [];
    var mk: seq<string> := if maintainers then ["maintainers"] else [];
    var ok: seq<string> := if optional then ["optional-dependencies"] else [];
    var e: seq<string> := [];
    assert KeyList(readme, false, false, false, false) == REQUIRED_KEYS + rk + e + e + e + e;
    assert KeyList(readme, authors, false, false, false) == REQUIRED_KEYS + rk + ak + e + e + e;
    assert KeyList(readme, authors, maintainers, false, false) == REQUIRED_KEYS + rk + ak + mk + e + e;
    assert KeyList(readme, authors, maintainers, optional, false) == REQUIRED_KEYS + rk + ak + mk + ok + e;
  }

  /** The steps of `project_fragment` that set an optional key: each key
      is new when it is set, so its entry is appended. */
  lemma ReadmeStep(pkg: Package, d1: Dict<Value>)
    requires MAIN_GROUP in GroupNames(pkg)
    requires d1 == if pkg.readme.Some? then Set(RequiredEntries(pkg), "readme", Str(pkg.readme.value)) else RequiredEntries(pkg)
    ensures d1 == RequiredEntries(pkg) + (if pkg.readme.Some? then [("readme", Str(pkg.readme.value))] else [])
    ensures Keys(d1) == KeyList(pkg.readme.Some?, false, false, false, false)
  {
    KeyListSteps(pkg.readme.Some?, false, false, false);
    assert Keys(RequiredEntries(pkg)) == REQUIRED_KEYS;
  }

  lemma AuthorsStep(r: bool, a: bool, d1: Dict<Value>, v: Value)
    requires Keys(d1) == KeyList(r, false, false, false, false)
    ensures SetIf(d1, a, "authors", v) == d1 + Optional(a, "authors", v)
    ensures Keys(SetIf(d1, a, "authors", v)) == KeyList(r, a, false, false, false)
  {
    KeyListSteps(r, a, false, false);
    KeyListMembership(r, false, false, false, false);
    SetIfAppends(d1, a, "authors", v);
  }

  lemma MaintainersStep(r: bool, a: bool, m: bool, d2: Dict<Value>, v: Value)
    requires Keys(d2) == KeyList(r, a, false, false, false)
    ensures SetIf(d2, m, "maintainers", v) == d2 + Optional(m, "maintainers", v)
    ensures Keys(SetIf(d2, m, "maintainers", v)) == KeyList(r, a, m, false, false)
  {
    KeyListSteps(r, a, m, false);
    KeyListMembership(r, a, false, false, false);
    SetIfAppends(d2, m, "maintainers", v);
  }

  lemma OptionalDependenciesStep(r: bool, a: bool, m: bool, o: bool, d3: Dict<Value>, v: Value)
    requires Keys(d3) == KeyList(r, a, m, false, false)
    ensures SetIf(d3, o, "optional-dependencies", v) == d3 + Optional(o, "optional-dependencies", v)
    ensures Keys(SetIf(d3, o, "optional-dependencies", v)) == KeyList(r, a, m, o, false)
  {
    KeyListSteps(r, a, m, o);
    KeyListMembership(r, a, m, false, false);
    SetIfAppends(d3, o, "optional-dependencies", v);
  }

  lemma ScriptsStep(r: bool, a: bool, m: bool, o: bool, sc: bool, d4: Dict<Value>, scripts: Option<Value>, d5: Dict<Value>)
    requires Keys(d4) == KeyList(r, a, m, o, false)
    requires sc ==> scripts.Some?
    requires d5 == if sc then Set(d4, "scripts", scripts.value) else d4
    ensures d5 == d4 + (if sc then [("scripts", scripts.value)] else [])
  {
    KeyListMembership(r, a, m, o, false);
  }

  /** Setting keys one by one, as `project_fragment` does, builds the
      same table as `Assemble`. */
  lemma AssembleBySetting(pkg: Package, localConfig: Dict<Value>, authors: seq<Person>, maintainers: seq<Person>,
                          scripts: Option<Value>, d0: Dict<Value>, d1: Dict<Value>, d2: Dict<Value>,
                          d3: Dict<Value>, d4: Dict<Value>, d5: Dict<Value>)
    requires MAIN_GROUP in GroupNames(pkg)
    requires d0 == RequiredEntries(pkg)
    requires d1 == if pkg.readme.Some? then Set(d0, "readme", Str(pkg.readme.value)) else d0
    requires d2 == SetIf(d1, pkg.authors != [], "authors", PersonArray(authors))
    requires d3 == SetIf(d2, pkg.maintainers != [], "maintainers", PersonArray(maintainers))
    requires d4 == SetIf(d3, OptionalGroupNames(pkg) != [], "optional-dependencies", StrArray(OptionalGroupNames(pkg)))
    requires scripts == Get(localConfig, "scripts")
    requires d5 == if scripts.Some? && Truthy(scripts.value) then Set(d4, "scripts", scripts.value) else d4
    ensures d5 == Assemble(pkg, localConfig, authors, maintainers)
  {
    var r, a, m := pkg.readme.Some?, pkg.authors != [], pkg.maintainers != [];
    var o := OptionalGroupNames(pkg) != [];
    ReadmeStep(pkg, d1);
    AuthorsStep(r, a, d1, PersonArray(authors));
    MaintainersStep(r, a, m, d2, PersonArray(maintainers));
    OptionalDependenciesStep(r, a, m, o, d3, StrArray(OptionalGroupNames(pkg)));
    ScriptsStep(r, a, m, o, HasScripts(localConfig), d4, scripts, d5);
  }

  /** When the fragment fails: a `KeyError` for a missing main group,
      otherwise the first malformed author, then the first malformed
      maintainer. */
  lemma FragmentFailures(pkg: Package, localConfig: Dict<Value>)
    ensures MAIN_GROUP !in GroupNames(pkg) ==>
      ProjectFragmentOf(pkg, localConfig) == Err(KeyError(MAIN_GROUP))
    ensures MAIN_GROUP in GroupNames(pkg) ==>
      (ProjectFragmentOf(pkg, localConfig).Ok? <==>
        (forall i :: 0 <= i < |pkg.authors| ==> ParsePersonEntry(pkg.authors[i]).Ok?) &&
        (forall i :: 0 <= i < |pkg.maintainers| ==> ParsePersonEntry(pkg.maintainers[i]).Ok?))
    ensures MAIN_GROUP in GroupNames(pkg) && ParsePersonEntries(pkg.authors).Err? ==>
      ProjectFragmentOf(pkg, localConfig) == Err(ParsePersonEntries(pkg.authors).error)
  {
  }

  /** The fragment's keys are exactly the five required ones followed by
      the optional ones whose source is truthy; none appears twice. */
  lemma FragmentKeys(pkg: Package, localConfig: Dict<Value>)
    requires ProjectFragmentOf(pkg, localConfig).Ok?
    ensures MAIN_GROUP in GroupNames(pkg)
    ensures Keys(ProjectFragmentOf(pkg, localConfig).value) == FragmentKeyList(pkg, localConfig)
    ensures Distinct(Keys(ProjectFragmentOf(pkg, localConfig).value))
  {
    AssembleKeys(pkg, localConfig, ParsePersonEntries(pkg.authors).value, ParsePersonEntries(pkg.maintainers).value);
    KeysDistinct(pkg.readme.Some?, pkg.authors != [], pkg.maintainers != [], OptionalGroupNames(pkg) != [], HasScripts(localConfig));
  }

  lemma AssembleKeys(pkg: Package, localConfig: Dict<Value>, authors: seq<Person>, maintainers: seq<Person>)
    requires MAIN_GROUP in GroupNames(pkg)
    ensures Keys(Assemble(pkg, localConfig, authors, maintainers)) == FragmentKeyList(pkg, localConfig)
  {
    var others := OptionalGroupNames(pkg);
    var req := RequiredEntries(pkg);
    var readme := if pkg.readme.Some? then [("readme", Str(pkg.readme.value))] else [];
    var a := Optional(pkg.authors != [], "authors", PersonArray(authors));
    var m := Optional(pkg.maintainers != [], "maintainers", PersonArray(maintainers));
    var o := Optional(others != [], "optional-dependencies", StrArray(others));
    var sc := if HasScripts(localConfig) then [("scripts", Get(localConfig, "scripts").value)] else [];
    var rk := if pkg.readme.Some? then ["readme"] else [];
    var ak := if pkg.authors != [] then ["authors"] else [];
    var mk := if pkg.maintainers != [] then ["maintainers"] else [];
    var ok := if others != [] then ["optional-dependencies"] else [];
    var sk := if HasScripts(localConfig) then ["scripts"] else [];
    assert Keys(req) == REQUIRED_KEYS;
    assert Keys(readme) == rk;
    assert Keys(a) == ak;
    assert Keys(m) == mk;
    assert Keys(o) == ok;
    assert Keys(sc) == sk;
    assert Assemble(pkg, localConfig, authors, maintainers) == req + readme + a + m + o + sc;
    KeysOfPieces(req, readme, a, m, o, sc);
  }

  /** The keys of six concatenated pieces, piece by piece. */
  lemma KeysOfPieces(p0: Dict<Value>, p1: Dict<Value>, p2: Dict<Value>, p3: Dict<Value>, p4: Dict<Value>, p5: Dict<Value>)
    ensures Keys(p0 + p1 + p2 + p3 + p4 + p5) == Keys(p0) + Keys(p1) + Keys(p2) + Keys(p3) + Keys(p4) + Keys(p5)
  {
    KeysConcat(p0, p1);
    KeysConcat(p0 + p1, p2);
    KeysConcat(p0 + p1 + p2, p3);
    KeysConcat(p0 + p1 + p2 + p3, p4);
    KeysConcat(p0 + p1 + p2 + p3 + p4, p5);
  }

  lemma KeysConcat(a: Dict<Value>, b: Dict<Value>)
    ensures Keys(a + b) == Keys(a) + Keys(b)
  {
  }

  /** No key of a fragment appears twice. */
  lemma KeysDistinct(readme: bool, authors: bool, maintainers: bool, optional: bool, scripts: bool)
    ensures Distinct(KeyList(readme, authors, maintainers, optional, scripts))
  {
    var rk := if readme then ["readme"] else [];
    var ak := if authors then ["authors"] else [];
    var mk := if maintainers then ["maintainers"] else [];
    var ok := if optional then ["optional-dependencies"] else [];
    var sk := if scripts then ["scripts"] else [];
    var k0 := REQUIRED_KEYS;
    assert Distinct(k0);
    DistinctAppend(k0, rk, ["readme"]);
    DistinctAppend(k0 + rk, ak, ["authors"]);
    DistinctAppend(k0 + rk + ak, mk, ["maintainers"]);
    DistinctAppend(k0 + rk + ak + mk, ok, ["optional-dependencies"]);
    DistinctAppend(k0 + rk + ak + mk + ok, sk, ["scripts"]);
  }

  /** Appending nothing, or one key not yet present, keeps keys distinct. */
  lemma DistinctAppend(ks: seq<string>, extra: seq<string>, one: seq<string>)
    requires Distinct(ks)
    requires extra == [] || extra == one
    requires |one| == 1 && one[0] !in ks
    ensures Distinct(ks + extra)
  {
  }

  /** Each optional entry is in the assembled fragment when its condition holds. */
  lemma AssembleEntries(pkg: Package, localConfig: Dict<Value>, authors: seq<Person>, maintainers: seq<Person>)
    requires MAIN_GROUP in GroupNames(pkg)
    ensures var d := Assemble(pkg, localConfig, authors, maintainers);
      && (forall e :: e in RequiredEntries(pkg) ==> e in d)
      && (pkg.readme.Some? ==> ("readme", Str(pkg.readme.value)) in d)
      && (pkg.authors != [] ==> ("authors", PersonArray(authors)) in d)
      && (pkg.maintainers != [] ==> ("maintainers", PersonArray(maintainers)) in d)
      && (OptionalGroupNames(pkg) != [] ==> ("optional-dependencies", StrArray(OptionalGroupNames(pkg))) in d)
      && (HasScripts(localConfig) ==> ("scripts", Get(localConfig, "scripts").value) in d)
  {
    var others := OptionalGroupNames(pkg);
    var req := RequiredEntries(pkg);
    var readme := if pkg.readme.Some? then [("readme", Str(pkg.readme.value))] else [];
    var a := Optional(pkg.authors != [], "authors", PersonArray(authors));
    var m := Optional(pkg.maintainers != [], "maintainers", PersonArray(maintainers));
    var o := Optional(others != [], "optional-dependencies", StrArray(others));
    var sc := if HasScripts(localConfig) then [("scripts", Get(localConfig, "scripts").value)] else [];
    var d := Assemble(pkg, localConfig, authors, maintainers);
    assert d == req + readme + a + m + o + sc;
    assert forall e :: e in req + readme + a + m + o + sc <==>
      e in req || e in readme || e in a || e in m || e in o || e in sc;
  }

  /** The required keys hold the package's name, version, description and
      python constraint, and the main group's PEP 508 strings in order. */
  lemma FragmentRequiredValues(pkg: Package, localConfig: Dict<Value>)
    requires ProjectFragmentOf(pkg, localConfig).Ok?
    ensures MAIN_GROUP in GroupNames(pkg)
    ensures var frag := ProjectFragmentOf(pkg, localConfig).value;
      && Get(frag, "name") == Some(Str(pkg.name))
      && Get(frag, "version") == Some(Str(pkg.version))
      && Get(frag, "description") == Some(Str(pkg.description))
      && Get(frag, "requires-python") == Some(Str(pkg.pythonConstraint))
      && Get(frag, "dependencies") == Some(StrArray(Pep508Strings(MainDependencies(pkg))))
  {
    FragmentEntries(pkg, localConfig);
    FragmentKeys(pkg, localConfig);
    var frag := ProjectFragmentOf(pkg, localConfig).value;
    GetMember(frag, "name", Str(pkg.name));
    GetMember(frag, "version", Str(pkg.version));
    GetMember(frag, "description", Str(pkg.description));
    GetMember(frag, "requires-python", Str(pkg.pythonConstraint));
    GetMember(frag, "dependencies", StrArray(Pep508Strings(MainDependencies(pkg))));
  }

  /** Which optional keys the key list holds. */
  lemma KeyListMembership(readme: bool, authors: bool, maintainers: bool, optional: bool, scripts: bool)
    ensures var ks := KeyList(readme, authors, maintainers, optional, scripts);
      && ("readme" in ks <==> readme)
      && ("authors" in ks <==> authors)
      && ("maintainers" in ks <==> maintainers)
      && ("optional-dependencies" in ks <==> optional)
      && ("scripts" in ks <==> scripts)
  {
    var rk := if readme then ["readme"] else [];
    var ak := if authors then ["authors"] else [];
    var mk := if maintainers then ["maintainers"] else [];
    var ok := if optional then ["optional-dependencies"] else [];
    var sk := if scripts then ["scripts"] else [];
    assert "readme" !in REQUIRED_KEYS && "authors" !in REQUIRED_KEYS && "maintainers" !in REQUIRED_KEYS;
    assert "optional-dependencies" !in REQUIRED_KEYS && "scripts" !in REQUIRED_KEYS;
    assert "authors" != "scripts";
  }

  /** A fragment that succeeds is the assembly of the parsed people. */
  lemma FragmentIsAssembled(pkg: Package, localConfig: Dict<Value>)
    requires ProjectFragmentOf(pkg, localConfig).Ok?
    ensures MAIN_GROUP in GroupNames(pkg)
    ensures ParsePersonEntries(pkg.authors).Ok? && ParsePersonEntries(pkg.maintainers).Ok?
    ensures ProjectFragmentOf(pkg, localConfig).value ==
      Assemble(pkg, localConfig, ParsePersonEntries(pkg.authors).value, ParsePersonEntries(pkg.maintainers).value)
  {
  }

  /** The optional entries whose condition holds are in the fragment. */
  lemma FragmentEntries(pkg: Package, localConfig: Dict<Value>)
    requires ProjectFragmentOf(pkg, localConfig).Ok?
    ensures MAIN_GROUP in GroupNames(pkg)
    ensures ParsePersonEntries(pkg.authors).Ok? && ParsePersonEntries(pkg.maintainers).Ok?
    ensures var d := ProjectFragmentOf(pkg, localConfig).value;
      && (forall e :: e in RequiredEntries(pkg) ==> e in d)
      && (pkg.readme.Some? ==> ("readme", Str(pkg.readme.value)) in d)
      && (pkg.authors != [] ==> ("authors", PersonArray(ParsePersonEntries(pkg.authors).value)) in d)
      && (pkg.maintainers != [] ==> ("maintainers", PersonArray(ParsePersonEntries(pkg.maintainers).value)) in d)
      && (OptionalGroupNames(pkg) != [] ==> ("optional-dependencies", StrArray(OptionalGroupNames(pkg))) in d)
      && (HasScripts(localConfig) ==> ("scripts", Get(localConfig, "scripts").value) in d)
  {
    FragmentIsAssembled(pkg, localConfig);
    AssembleEntries(pkg, localConfig, ParsePersonEntries(pkg.authors).value, ParsePersonEntries(pkg.maintainers).value);
  }

  /** `readme` is present exactly when the package has one, and holds it. */
  lemma FragmentReadme(pkg: Package, localConfig: Dict<Value>)
    requires ProjectFragmentOf(pkg, localConfig).Ok?
    ensures var frag := ProjectFragmentOf(pkg, localConfig).value;
      && (Get(frag, "readme").Some? <==> pkg.readme.Some?)
      && (pkg.readme.Some? ==> Get(frag, "readme") == Some(Str(pkg.readme.value)))
  {
    FragmentKeys(pkg, localConfig);
    KeyListMembership(pkg.readme.Some?, pkg.authors != [], pkg.maintainers != [], OptionalGroupNames(pkg) != [], HasScripts(localConfig));
    if pkg.readme.Some? {
      FragmentEntries(pkg, localConfig);
      GetMember(ProjectFragmentOf(pkg, localConfig).value, "readme", Str(pkg.readme.value));
    }
  }

  /** `authors` is present exactly when the package lists authors; it then
      holds one `{name, email}` table per entry, in order, each the parse
      of that entry. */
  lemma FragmentAuthors(pkg: Package, localConfig: Dict<Value>)
    requires ProjectFragmentOf(pkg, localConfig).Ok?
    ensures var frag := ProjectFragmentOf(pkg, localConfig).value;
      && (Get(frag, "authors").Some? <==> pkg.authors != [])
      && (pkg.authors != [] ==>
            Get(frag, "authors").value.Arr? &&
            var items := Get(frag, "authors").value.items;
            && |items| == |pkg.authors|
            && forall i :: 0 <= i < |pkg.authors| ==>
                 ParsePersonEntry(pkg.authors[i]).Ok? &&
                 items[i] == PersonTable(ParsePersonEntry(pkg.authors[i]).value))
  {
    FragmentKeys(pkg, localConfig);
    KeyListMembership(pkg.readme.Some?, pkg.authors != [], pkg.maintainers != [], OptionalGroupNames(pkg) != [], HasScripts(localConfig));
    if pkg.authors != [] {
      FragmentEntries(pkg, localConfig);
      GetMember(ProjectFragmentOf(pkg, localConfig).value, "authors", PersonArray(ParsePersonEntries(pkg.authors).value));
    }
  }

  /** `maintainers`, likewise. */
  lemma FragmentMaintainers(pkg: Package, localConfig: Dict<Value>)
    requires ProjectFragmentOf(pkg, localConfig).Ok?
    ensures var frag := ProjectFragmentOf(pkg, localConfig).value;
      && (Get(frag, "maintainers").Some? <==> pkg.maintainers != [])
      && (pkg.maintainers != [] ==>
            Get(frag, "maintainers").value.Arr? &&
            var items := Get(frag, "maintainers").value.items;
            && |items| == |pkg.maintainers|
            && forall i :: 0 <= i < |pkg.maintainers| ==>
                 ParsePersonEntry(pkg.maintainers[i]).Ok? &&
                 items[i] == PersonTable(ParsePersonEntry(pkg.maintainers[i]).value))
  {
    FragmentKeys(pkg, localConfig);
    KeyListMembership(pkg.readme.Some?, pkg.authors != [], pkg.maintainers != [], OptionalGroupNames(pkg) != [], HasScripts(localConfig));
    if pkg.maintainers != [] {
      FragmentEntries(pkg, localConfig);
      GetMember(ProjectFragmentOf(pkg, localConfig).value, "maintainers", PersonArray(ParsePersonEntries(pkg.maintainers).value));
    }
  }

  /** With distinct group names, the names of the groups other than main,
      in order, are the group names without "main". */
  lemma OptionalGroupNamesWithoutMain(pkg: Package)
    requires MAIN_GROUP in GroupNames(pkg)
    requires Distinct(GroupNames(pkg))
    ensures OptionalGroupNames(pkg) == Without(GroupNames(pkg), MAIN_GROUP)
    ensures OptionalGroupNames(pkg) != [] <==> exists i :: 0 <= i < |pkg.groups| && pkg.groups[i].name != MAIN_GROUP
  {
    var names := GroupNames(pkg);
    WithoutUnique(names, MainIndex(pkg));
    var others := OptionalGroupNames(pkg);
    if others != [] {
      assert others[0] in names && others[0] != MAIN_GROUP;
    } else {
      forall i | 0 <= i < |pkg.groups|
        ensures pkg.groups[i].name == MAIN_GROUP
      {
        assert names[i] == pkg.groups[i].name;
      }
    }
  }

  /** `optional-dependencies` is present exactly when there is a group
      besides main, and holds the NAMES of those groups, in group order. */
  lemma FragmentOptionalDependencies(pkg: Package, localConfig: Dict<Value>)
    requires ProjectFragmentOf(pkg, localConfig).Ok?
    requires Distinct(GroupNames(pkg))
    ensures var frag := ProjectFragmentOf(pkg, localConfig).value;
      && (Get(frag, "optional-dependencies").Some? <==>
            exists i :: 0 <= i < |pkg.groups| && pkg.groups[i].name != MAIN_GROUP)
      && (Get(frag, "optional-dependencies").Some? ==>
            Get(frag, "optional-dependencies") == Some(StrArray(Without(GroupNames(pkg), MAIN_GROUP))))
  {
    FragmentOptionalDependenciesValue(pkg, localConfig);
    OptionalGroupNamesWithoutMain(pkg);
  }

  /** `optional-dependencies`, when present, holds the names of the groups
      other than main; no assumption on the group names is needed. */
  lemma FragmentOptionalDependenciesValue(pkg: Package, localConfig: Dict<Value>)
    requires ProjectFragmentOf(pkg, localConfig).Ok?
    ensures MAIN_GROUP in GroupNames(pkg)
    ensures var frag := ProjectFragmentOf(pkg, localConfig).value;
      && (Get(frag, "optional-dependencies").Some? <==> OptionalGroupNames(pkg) != [])
      && (Get(frag, "optional-dependencies").Some? ==>
            Get(frag, "optional-dependencies") == Some(StrArray(OptionalGroupNames(pkg))))
  {
    FragmentKeys(pkg, localConfig);
    KeyListMembership(pkg.readme.Some?, pkg.authors != [], pkg.maintainers != [], OptionalGroupNames(pkg) != [], HasScripts(localConfig));
    if OptionalGroupNames(pkg) != [] {
      FragmentEntries(pkg, localConfig);
      GetMember(ProjectFragmentOf(pkg, localConfig).value, "optional-dependencies", StrArray(OptionalGroupNames(pkg)));
    }
  }

  /** `scripts` is present exactly when the Poetry section's `scripts` is
      truthy, and holds it unchanged. */
  lemma FragmentScripts(pkg: Package, localConfig: Dict<Value>)
    requires ProjectFragmentOf(pkg, localConfig).Ok?
    ensures var frag := ProjectFragmentOf(pkg, localConfig).value;
      && (Get(frag, "scripts").Some? <==> HasScripts(localConfig))
      && (HasScripts(localConfig) ==> Get(frag, "scripts") == Get(localConfig, "scripts"))
  {
    FragmentKeys(pkg, localConfig);
    KeyListMembership(pkg.readme.Some?, pkg.authors != [], pkg.maintainers != [], OptionalGroupNames(pkg) != [], HasScripts(localConfig));
    if HasScripts(localConfig) {
      FragmentEntries(pkg, localConfig);
      GetMember(ProjectFragmentOf(pkg, localConfig).value, "scripts", Get(localConfig, "scripts").value);
    }
  }

  /** No optional list or table is ever written empty. */
  lemma FragmentNeverEmpty(pkg: Package, localConfig: Dict<Value>)
    requires ProjectFragmentOf(pkg, localConfig).Ok?
    ensures var frag := ProjectFragmentOf(pkg, localConfig).value;
      && (pkg.readme.Some? && pkg.readme.value != "" ==>
            Get(frag, "readme").Some? && Truthy(Get(frag, "readme").value))
      && (Get(frag, "authors").Some? ==> Truthy(Get(frag, "authors").value))
      && (Get(frag, "maintainers").Some? ==> Truthy(Get(frag, "maintainers").value))
      && (Get(frag, "optional-dependencies").Some? ==> Truthy(Get(frag, "optional-dependencies").value))
      && (Get(frag, "scripts").Some? ==> Truthy(Get(frag, "scripts").value))
  {
    FragmentReadme(pkg, localConfig);
    FragmentAuthors(pkg, localConfig);
    FragmentMaintainers(pkg, localConfig);
    FragmentOptionalDependenciesValue(pkg, localConfig);
    FragmentScripts(pkg, localConfig);
  }

  /** A package with nothing optional gets exactly the five required keys. */
  lemma BareFragment(pkg: Package, localConfig: Dict<Value>)
    requires GroupNames(pkg) == [MAIN_GROUP]
    requires pkg.readme.None? && pkg.authors == [] && pkg.maintainers == []
    requires Get(localConfig, "scripts").None?
    ensures ProjectFragmentOf(pkg, localConfig).Ok?
    ensures Keys(ProjectFragmentOf(pkg, localConfig).value) == REQUIRED_KEYS
  {
    FragmentKeys(pkg, localConfig);
    assert OptionalGroupNames(pkg) == [];
  }
}
