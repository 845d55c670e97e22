/** What `Uvifyer.eject` does to the `pyproject.toml` document, stated as
    functions of the document, and the properties of the result. */
module Documents {
  import opened Wrappers
  import opened Dicts
  import opened Toml
  import opened Projects

  /** `toml["tool"].pop("poetry")`: the document with the `[tool.poetry]`
      table removed from `[tool]`, which keeps its place. */
  function DropPoetry(doc: Document): (r: Result<Document>)
    ensures r.Err? <==> !HasPoetryTool(doc)
    ensures r.Ok? ==> Keys(r.value) == Keys(doc)
    ensures r.Ok? ==> forall x :: x != "tool" ==> Get(r.value, x) == Get(doc, x)
    ensures r.Ok? ==>
      var before := Get(doc, "tool").value.entries;
      && Get(r.value, "tool").value.Table?
      && |Get(r.value, "tool").value.entries| == |before| - 1
      && forall x :: x != "poetry" ==> Get(Get(r.value, "tool").value.entries, x) == Get(before, x)
  {
    match Get(doc, "tool")
    case None => Err(KeyError("tool"))
    case Some(tool) =>
      if !tool.Table? then Err(NotATable("tool"))
      else
        match Pop(tool.entries, "poetry")
        case Err(e) => Err(e)
        case Ok(popped) => Ok(Set(doc, "tool", Table(popped.1)))
  }

  /** `toml.pop("build-system")`. */
  function DropBuildSystem(doc: Document): (r: Result<Document>)
    ensures r.Err? <==> "build-system" !in Keys(doc)
    ensures r.Ok? ==> |r.value| == |doc| - 1
    ensures r.Ok? ==> forall x :: x != "build-system" ==> Get(r.value, x) == Get(doc, x)
    ensures r.Ok? && Distinct(Keys(doc)) ==> "build-system" !in Keys(r.value)
  {
    match Pop(doc, "build-system")
    case Err(e) => Err(e)
    case Ok(popped) => Ok(popped.1)
  }

  /** The whole rewrite, given what `project_fragment` returns: drop
      `tool.poetry`, drop `build-system`, set `project`, then set
      `build-system` again so that it comes after `project`. */
  function Rewrite(doc: Document, fragment: Result<Dict<Value>>): (r: Result<Document>)
    ensures r.Ok? <==> HasPoetryTool(doc) && "build-system" in Keys(doc) && fragment.Ok?
    ensures r.Ok? ==> Get(r.value, "project") == Some(Table(fragment.value))
    ensures r.Ok? ==> Get(r.value, "build-system") == Some(Table(BuildSystemFragment()))
  {
    match DropPoetry(doc)
    case Err(e) => Err(e)
    case Ok(d1) =>
      match DropBuildSystem(d1)
      case Err(e) => Err(e)
      case Ok(d2) =>
        match fragment
        case Err(e) => Err(e)
        case Ok(project) =>
          Ok(Set(Set(d2, "project", Table(project)), "build-system", Table(BuildSystemFragment())))
  }

  /** The document as `eject` leaves it when it fails: with whichever of
      the two removals succeeded before the failure applied. */
  function Stripped(doc: Document): Document
  {
    match DropPoetry(doc)
    case Err(_) => doc
    case Ok(d1) =>
      match DropBuildSystem(d1)
      case Err(_) => d1
      case Ok(d2) => d2
  }

  /** The document has a `[tool]` table holding a `poetry` key. */
  predicate HasPoetryTool(doc: Document)
  {
    Get(doc, "tool").Some? && Get(doc, "tool").value.Table? &&
    "poetry" in Keys(Get(doc, "tool").value.entries)
  }

  /** The errors of the rewrite, in the order the steps raise them. */
  lemma RewriteFailures(doc: Document, fragment: Result<Dict<Value>>)
    ensures Get(doc, "tool").None? ==> Rewrite(doc, fragment) == Err(KeyError("tool"))
    ensures Get(doc, "tool").Some? && !Get(doc, "tool").value.Table? ==>
      Rewrite(doc, fragment) == Err(NotATable("tool"))
    ensures Get(doc, "tool").Some? && Get(doc, "tool").value.Table? && !HasPoetryTool(doc) ==>
      Rewrite(doc, fragment) == Err(KeyError("poetry"))
    ensures HasPoetryTool(doc) && "build-system" !in Keys(doc) ==>
      Rewrite(doc, fragment) == Err(KeyError("build-system"))
    ensures HasPoetryTool(doc) && "build-system" in Keys(doc) ==>
      (Rewrite(doc, fragment).Ok? <==> fragment.Ok?) &&
      (fragment.Err? ==> Rewrite(doc, fragment) == Err(fragment.error))
  {
  }

  /** After a successful rewrite: `tool` has lost `poetry` and nothing
      else; `project` is the fragment; `build-system` is the hatchling
      table and is the last key, after `project`; every other key keeps
      its value, and the keys keep their order. */
  lemma RewriteResult(doc: Document, fragment: Result<Dict<Value>>)
    requires Distinct(Keys(doc))
    requires Rewrite(doc, fragment).Ok?
    ensures fragment.Ok? && HasPoetryTool(doc)
    ensures var r := Rewrite(doc, fragment).value;
      var tool := Get(doc, "tool").value.entries;
      && Get(r, "tool") == Some(Table(Pop(tool, "poetry").value.1))
      && (forall x :: x != "poetry" ==> Get(Pop(tool, "poetry").value.1, x) == Get(tool, x))
      && (Distinct(Keys(tool)) ==> "poetry" !in Keys(Pop(tool, "poetry").value.1))
    ensures var r := Rewrite(doc, fragment).value;
      && Get(r, "project") == Some(Table(fragment.value))
      && Get(r, "build-system") == Some(Table(BuildSystemFragment()))
    ensures var r := Rewrite(doc, fragment).value;
      forall x :: x != "tool" && x != "project" && x != "build-system" ==> Get(r, x) == Get(doc, x)
    ensures var r := Rewrite(doc, fragment).value;
      var kept := Without(Keys(doc), "build-system");
      && Keys(r) == (if "project" in kept then kept else kept + ["project"]) + ["build-system"]
      && Distinct(Keys(r))
      && Find(Keys(r), "project") < Find(Keys(r), "build-system") == |r| - 1
  {
    var tool := Get(doc, "tool").value.entries;
    var d1 := Set(doc, "tool", Table(Pop(tool, "poetry").value.1));
    assert Keys(d1) == Keys(doc);
    var d2 := Pop(d1, "build-system").value.1;
    var kept := Keys(d2);
    assert kept == Without(Keys(doc), "build-system");
    var d3 := Set(d2, "project", Table(fragment.value));
    var r := Set(d3, "build-system", Table(BuildSystemFragment()));
    assert "build-system" !in kept;
    assert Keys(r) == Keys(d3) + ["build-system"];
    assert Find(Keys(r), "build-system") == |r| - 1;
  }

  /** The document of the end-to-end example: a Poetry section and a
      poetry-core build system. */
  function ExampleDocument(poetry: Dict<Value>): Document
  {
    [("tool", Table([("poetry", Table(poetry))])),
     ("build-system", Table([("requires", StrArray(["poetry-core"]))]))]
  }

  /** The two removals of the end-to-end example leave an empty `[tool]`. */
  lemma ExampleRemovals(poetry: Dict<Value>)
    ensures DropPoetry(ExampleDocument(poetry)) ==
      Ok([("tool", Table([])), ("build-system", Table([("requires", StrArray(["poetry-core"]))]))])
    ensures DropBuildSystem(DropPoetry(ExampleDocument(poetry)).value) == Ok([("tool", Table([]))])
  {
    var bs := ("build-system", Table([("requires", StrArray(["poetry-core"]))]));
    var doc := ExampleDocument(poetry);
    assert Keys(doc) == ["tool", "build-system"];
    assert Find(Keys(doc), "tool") == 0;
    assert Get(doc, "tool") == Some(Table([("poetry", Table(poetry))]));
    var tool: Dict<Value> := [("poetry", Table(poetry))];
    assert Keys(tool) == ["poetry"];
    assert Pop(tool, "poetry") == Ok((Table(poetry), []));
    var d1 := [("tool", Table([])), bs];
    assert Set(doc, "tool", Table([])) == d1;
    assert Keys(d1) == ["tool", "build-system"];
    assert Find(Keys(d1), "build-system") == 1;
    var d2: Document := [("tool", Table([]))];
    assert d1[..1] + d1[2..] == d2;
    assert Pop(d1, "build-system") == Ok((bs.1, d2));
  }

  /** The document rewritten in the end-to-end example: `[tool.poetry]`
      and `[build-system]` go, `[project]` and `[build-system]` arrive,
      in that order. */
  lemma RewriteExample(poetry: Dict<Value>, fragment: Dict<Value>)
    ensures Rewrite(ExampleDocument(poetry), Ok(fragment)) ==
      Ok([("tool", Table([])), ("project", Table(fragment)), ("build-system", Table(BuildSystemFragment()))])
  {
    ExampleRemovals(poetry);
    ExampleSettings(fragment);
  }

  /** The two assignments of the end-to-end example append `project`,
      then `build-system`, to the stripped document. */
  lemma ExampleSettings(fragment: Dict<Value>)
    ensures var d2: Document := [("tool", Table([]))];
      Set(Set(d2, "project", Table(fragment)), "build-system", Table(BuildSystemFragment())) ==
      [("tool", Table([])), ("project", Table(fragment)), ("build-system", Table(BuildSystemFragment()))]
  {
    var d2: Document := [("tool", Table([]))];
    assert Keys(d2) == ["tool"];
    var d3 := Set(d2, "project", Table(fragment));
    assert d3 == [("tool", Table([])), ("project", Table(fragment))];
    assert Keys(d3) == ["tool", "project"];
    var r := Set(d3, "build-system", Table(BuildSystemFragment()));
    assert r == d3 + [("build-system", Table(BuildSystemFragment()))];
  }
}
