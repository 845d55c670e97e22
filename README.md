# poetry-uvify: a verified model of the `Uvifyer` translator

`poetry_uvify/plugins.py` is a Poetry plugin that turns a Poetry project
into one that uv can use. It rewrites `pyproject.toml` in place:

- the `[tool.poetry]` section is replaced by a PEP 621 `[project]` table
  (the "Storing project metadata in pyproject.toml" specification);
- the `[build-system]` table is replaced by a PEP 517 one for hatchling.

This project models the `Uvifyer` class in Dafny and proves what it
computes.

The model has these parts:

- **Person entries** (`Persons`, built on `Strings`). `_parse_person_entry` splits
  `"Name <email>"` on `<`, as Python's `str.split` does. It then drops every `>`,
  as `str.replace(">", "")` does. Any number of `<` other than one makes the
  two-name unpacking fail.
- **Dependency groups** (`Packages`). `_dep_groups` maps every group name to a
  generator. The model represents a generator that has not been started by the
  list of dependencies it would walk. Running a generator yields each
  dependency's PEP 508 string. It also writes each sourced dependency into
  `package_sources`, where a later write overwrites an earlier one.
  `Uvifyer.ConsumeDeps` is that loop, as a method on the object.
- **The `[project]` fragment** (`Projects`, `Plugins.Uvifyer.ProjectFragment`).
  `groups.pop("main")` raises a `KeyError` when there is no main group. Only the
  main group's generator is ever run, so only main dependencies reach
  `package_sources`. The five required keys come first. Each optional key is
  then set, in source order, only when its source value is truthy.
- **The document rewrite** (`Documents`, `Plugins.Uvifyer.Eject`). A TOML
  document is an ordered association list (`Dicts`). Assigning to an existing
  key keeps its position; assigning to a new key appends it. `eject` changes the
  Poetry project's document in place:
  1. pop `tool.poetry`;
  2. pop `build-system`;
  3. set `project`;
  4. set `build-system` again, so that it comes last.

  A failing step leaves the removals that were already made.
  `Documents.Stripped` gives that partial state.

In three places the code does something other than what its documentation
suggests. The model follows the code:

- The docstring of `_parse_person_entry` shows a trimmed name. The code keeps
  the whitespace before `<`, so `"John Smith <j@x.org>"` gives the name
  `"John Smith "` (`Persons.DocstringExample`).
- The code removes every `>` of the email part, not only a trailing one.
- `optional-dependencies` receives `list(groups)`: the list of the other groups'
  NAMES, not a table from each name to its dependencies
  (`Projects.FragmentOptionalDependencies`).

## Model

| member | source | states |
|---|---|---|
| Strings.Split | poetry_uvify/plugins.py:33 | `str.split` on one character gives one more piece than there are separators, and no piece contains the separator |
| Strings.JoinSplit | poetry_uvify/plugins.py:33 | joining the pieces of a split with the separator gives back the original string |
| Strings.SplitJoin | poetry_uvify/plugins.py:33 | splitting a join of separator-free pieces gives back exactly those pieces |
| Strings.SplitOnce | poetry_uvify/plugins.py:33 | with exactly one separator, the two pieces are the text before it and the text after it |
| Strings.RemoveChar | poetry_uvify/plugins.py:34 | `str.replace(c, "")` leaves no `c`, shortens the string by the number of `c`s, and keeps the count of every other character |
| Strings.RemoveCharConcat | poetry_uvify/plugins.py:34 | removing a character distributes over concatenation |
| Strings.RemoveCharAbsent | poetry_uvify/plugins.py:34 | removing a character that does not occur changes nothing, so removing twice equals removing once |
| Persons.ParsePersonEntry | poetry_uvify/plugins.py:26-35 | succeeds iff the entry has exactly one `<`. The name is the untrimmed text before it. The email is the text after it with every `>` dropped. Otherwise it is an unpack error carrying the number of parts |
| Persons.ParsePersonEntries | poetry_uvify/plugins.py:50-56 | the list comprehension succeeds iff every entry parses; the result has one person per entry, in order; a failure carries the first failing entry's error |
| Persons.FormattedEntryParses | poetry_uvify/plugins.py:33-35 | an entry written as `name + "<" + email + ">"` parses back into that name and email, whatever whitespace the name ends with |
| Persons.DocstringExample | poetry_uvify/plugins.py:27-35 | the docstring's example parses into the name `"John Smith "`, trailing space kept, and the email `"johnsmith@example.org"` |
| Persons.MalformedEntries | poetry_uvify/plugins.py:33 | an entry with no `<` fails with one part; an entry with two `<` fails with three |
| Dicts.Get | poetry_uvify/plugins.py:61 | `d.get(k)` finds a value iff `k` is a key, and the value is stored under `k` |
| Dicts.Pop | poetry_uvify/plugins.py:39 | `d.pop(k)` raises `KeyError(k)` iff `k` is absent. Otherwise it returns the value under `k` and removes exactly that entry. Every other key keeps its value, and distinct keys stay distinct |
| Dicts.Set | poetry_uvify/plugins.py:47-62 | `d[k] = v` makes `k` look up `v` and leaves other keys alone. An existing key keeps its position; a new key is appended at the end |
| Packages.DepGroups | poetry_uvify/plugins.py:14-18 | `_dep_groups` has one entry per group name, in order; with distinct names, each name looks up its own group's dependencies |
| Packages.HasSource | poetry_uvify/plugins.py:22 | `if dep.source_name:` holds iff the dependency has a source name that is truthy in Python's sense, that is, not empty |
| Packages.RecordSources | poetry_uvify/plugins.py:20-24 | the writes a consumed generator makes to `package_sources`: no entry already there is removed, and every sourced dependency's name gets an entry |
| Packages.Pep508Strings | poetry_uvify/plugins.py:20-24 | a fully consumed generator yields one PEP 508 string per dependency, in order |
| Packages.RecordSourcesLastWins | poetry_uvify/plugins.py:20-24 | after consumption, a name's side-table entry is the source of its last sourced dependency |
| Packages.RecordSourcesUntouched | poetry_uvify/plugins.py:20-24 | a name with no sourced dependency keeps whatever entry it had, or stays absent |
| Packages.RecordSourcesKeys | poetry_uvify/plugins.py:20-24 | consumption adds no side-table entries except for sourced dependencies |
| Plugins.Uvifyer.constructor | poetry_uvify/plugins.py:9-12 | a new translator holds the package and configuration it was given and an empty `package_sources` |
| Plugins.Uvifyer.ConsumeDeps | poetry_uvify/plugins.py:20-24 | running a generator to exhaustion returns its PEP 508 strings and leaves `package_sources` as the in-order recording of the sourced dependencies |
| Plugins.Uvifyer.ProjectFragment | poetry_uvify/plugins.py:37-64 | the key-by-key construction returns exactly `ProjectFragmentOf`, errors included. `package_sources` changes only when main exists, and then only by the main group's sources |
| Plugins.Uvifyer.Eject | poetry_uvify/plugins.py:69-81 | the in-place rewrite returns exactly `Rewrite` of the old document. On success the document is the result; on failure it keeps the removals already made. `package_sources` changes only if both removals succeed and main exists |
| Projects.MainIndex | poetry_uvify/plugins.py:39 | the main group sits at a valid position and carries the name "main" |
| Projects.PopMainGroup | poetry_uvify/plugins.py:38-39 | popping "main" from the groups fails with `KeyError("main")` iff there is no main group. Otherwise it yields the main group's dependencies and the other group names, in order |
| Projects.ProjectFragmentOf | poetry_uvify/plugins.py:37-64 | `project_fragment` fails iff there is no main group or some author or maintainer entry does not parse; with main present, every failure is an unpack error |
| Projects.AssembleBySetting | poetry_uvify/plugins.py:40-62 | setting the optional keys one by one, each only when its source is truthy, builds the same table as `Assemble`'s concatenation: each key is new when set, so it is appended |
| Projects.FragmentFailures | poetry_uvify/plugins.py:37-56 | the fragment fails with `KeyError("main")` when main is missing. With main present it succeeds iff every author and maintainer parses, and an author's error comes first |
| Projects.FragmentKeys | poetry_uvify/plugins.py:40-62 | the fragment's keys are the five required ones, then the optional ones whose source is truthy, in source order, none twice |
| Projects.FragmentRequiredValues | poetry_uvify/plugins.py:39-46 | name, version, description and requires-python are the package's own. `dependencies` is the main group's PEP 508 strings in order |
| Projects.FragmentReadme | poetry_uvify/plugins.py:47-48 | `readme` is present iff the package has one, and then holds it |
| Projects.FragmentAuthors | poetry_uvify/plugins.py:50-51 | `authors` is present iff there are authors. It then has one `{name, email}` table per entry, in order, each the parse of that entry |
| Projects.FragmentMaintainers | poetry_uvify/plugins.py:53-56 | the same for `maintainers` |
| Projects.FragmentOptionalDependenciesValue | poetry_uvify/plugins.py:58-59 | `optional-dependencies` is present iff some group besides main remains, and then holds the names of those groups in group order |
| Projects.FragmentOptionalDependencies | poetry_uvify/plugins.py:58-59 | with distinct group names: present iff some group is not main, and then equal to the group names with "main" left out |
| Projects.FragmentScripts | poetry_uvify/plugins.py:61-62 | `scripts` is present iff the Poetry section's `scripts` is truthy, and then holds it unchanged |
| Projects.FragmentNeverEmpty | poetry_uvify/plugins.py:47-62 | no optional list or table is ever written empty, and a non-empty readme path is written as a non-empty string |
| Projects.BareFragment | poetry_uvify/plugins.py:37-64 | a package with only a main group and nothing optional gets exactly the five required keys |
| Projects.BuildSystemFragment | poetry_uvify/plugins.py:66-67 | `build_system_fragment` is the constant table `{"requires": ["hatchling"], "build-backend": "hatchling.build"}`, with `requires` first |
| Documents.DropPoetry | poetry_uvify/plugins.py:71 | `toml["tool"].pop("poetry")` fails iff the document has no `[tool]` table holding `poetry`. Otherwise the top-level keys stay as they are, no top-level key but `tool` changes, and `tool` loses exactly one entry, leaving every key but `poetry` alone |
| Documents.DropBuildSystem | poetry_uvify/plugins.py:72-74 | `toml.pop("build-system")` fails iff there is no `build-system` key. Otherwise exactly one entry goes, every other key keeps its value, and with distinct keys `build-system` is gone |
| Documents.Rewrite | poetry_uvify/plugins.py:69-77 | the whole rewrite succeeds iff the document has `tool.poetry` and `build-system` and the fragment succeeds; on success `project` holds the fragment and `build-system` the hatchling table |
| Documents.RewriteFailures | poetry_uvify/plugins.py:70-77 | the rewrite fails with `KeyError("tool")`, `NotATable("tool")`, `KeyError("poetry")` or `KeyError("build-system")`, in that order of checks, else with the fragment's error, else succeeds |
| Documents.RewriteResult | poetry_uvify/plugins.py:66-77 | after a successful rewrite, `tool` has lost `poetry` and nothing else. `project` is the fragment, and `build-system` is the hatchling table. Every other key keeps its value; keys stay distinct and in order, with `build-system` last, after `project` |
| Documents.ExampleRemovals | poetry_uvify/plugins.py:70-74 | on a document holding `[tool.poetry]` and `[build-system]`, the two removals leave an empty `[tool]` |
| Documents.RewriteExample | poetry_uvify/plugins.py:69-77 | that document is rewritten into `[tool]`, `[project]`, `[build-system]`, in that order |

## Left out

- `UvifyCommand.handle` and `UvifyPlugin.commands` (poetry_uvify/plugins.py:84-96): Poetry's console and plugin framework, and output to the console.
- `toml.as_string()` (poetry_uvify/plugins.py:81): tomlkit's text rendering. `Eject` returns the rewritten document rather than its text.
- The model's key order is the order of the mapping, which is the order `Dicts.Set` states. In the rendered text, tomlkit places a new plain value before the first sub-table, so inside `[project]` a key such as `optional-dependencies` may be printed before the `[[project.authors]]` tables even though it comes after them in the mapping.
- tomlkit's comments, whitespace and table styles, and the TOML float, date and time values: the document is an ordered map of strings, integers, booleans, arrays and tables.
- `dep.base_pep_508_name_resolved`, `version.text` and `str(python_constraint)`: poetry-core's rendering. They are input strings of the model.
- `readme.relative_to(root_dir)` (poetry_uvify/plugins.py:48): path arithmetic. The relative readme path is an input string; a path outside the root, which makes `relative_to` raise, is not modelled. The model admits an empty readme string, which `str(path.relative_to(...))` never produces; `Projects.FragmentNeverEmpty` speaks of a non-empty one.
- The `apply` parameter of `eject` (poetry_uvify/plugins.py:69) is unused by the code. The TODO about writing `package_sources` out (poetry_uvify/plugins.py:79) has no code behind it.
- poetry-core's `dependency_group_names()` returns a set and leaves out optional groups. The model takes the groups, and so their order, as an input sequence.
- Packages.DepGroups: the dict comprehension would merge two groups of the same name, while the model keeps both entries and looks up the first. The lemmas that speak of group names require distinct names, as poetry-core stores groups in a dict.
- The generators' laziness is captured only by when they run. The model records the dependency list a generator will walk, not a suspended computation, so a group changed between `_dep_groups` and `list(main_group)` is not modelled.
- Exceptions other than a missing key, a failed unpacking and a non-table `tool` are not modelled.
- The custom-index variant (a `sources` side table and a stripped `index` list in the output) is not part of this source file.
