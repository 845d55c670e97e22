/** Parsing of Poetry's `"Name <email>"` author and maintainer entries
    into PEP 621 `{name, email}` tables (`Uvifyer._parse_person_entry`). */
module Persons {
  import opened Wrappers
  import opened Strings
  import opened Toml

  datatype Person = Person(name: string, email: string)

  /** `name, email = entry.split("<")`, then `email.replace(">", "")`.
      The name keeps any whitespace before `<`; every `>` of the email
      part is dropped, not only a trailing one. Any number of `<` other
      than one is an unpack error. */
  function ParsePersonEntry(entry: string): (r: Result<Person>)
    ensures r.Ok? <==> Count(entry, '<') == 1
    ensures r.Err? ==> r.error == UnpackError(Count(entry, '<') + 1)
    ensures r.Ok? ==>
      var i := IndexOf(entry, '<');
      r.value == Person(entry[..i], RemoveChar(entry[i + 1..], '>'))
  {
    var parts := Split(entry, '<');
    if |parts| != 2 then Err(UnpackError(|parts|))
    else
      SplitOnce(entry, '<');
      Ok(Person(parts[0], RemoveChar(parts[1], '>')))
  }

  /** The list comprehension `[self._parse_person_entry(p) for p in entries]`:
      one person per entry, in order, or the error of the first entry
      that does not parse. */
  function ParsePersonEntries(entries: seq<string>): (r: Result<seq<Person>>)
    ensures r.Ok? <==> forall i :: 0 <= i < |entries| ==> ParsePersonEntry(entries[i]).Ok?
    ensures r.Ok? ==> |r.value| == |entries|
    ensures r.Ok? ==> forall i :: 0 <= i < |entries| ==> ParsePersonEntry(entries[i]) == Ok(r.value[i])
    ensures r.Err? ==> exists i :: 0 <= i < |entries| && ParsePersonEntry(entries[i]) == Err(r.error) &&
                                 (forall j :: 0 <= j < i ==> ParsePersonEntry(entries[j]).Ok?)
  {
    if entries == [] then Ok([])
    else
      match ParsePersonEntry(entries[0])
      case Err(e) => Err(e)
      case Ok(p) =>
        match ParsePersonEntries(entries[1..])
        case Err(e) => Err(e)
        case Ok(ps) => Ok([p] + ps)
  }

  /** The table `dict(name=..., email=...)`. */
  function PersonTable(p: Person): Value
  {
    Table([("name", Str(p.name)), ("email", Str(p.email))])
  }

  /** The array of person tables. */
  function PersonArray(ps: seq<Person>): Value
  {
    Arr(seq(|ps|, i requires 0 <= i < |ps| => PersonTable(ps[i])))
  }

  /** An entry written as `name + "<" + email + ">"` parses back into its
      two parts, whatever whitespace the name ends with. */
  lemma FormattedEntryParses(name: string, email: string)
    requires '<' !in name && '<' !in email && '>' !in email
    ensures ParsePersonEntry(name + "<" + email + ">") == Ok(Person(name, email))
  {
    var entry := name + "<" + email + ">";
    FormattedCount(name, email);
    FormattedIndex(name, email);
    FormattedEmail(email);
  }

  /** The formatted entry holds exactly one `<`. */
  lemma FormattedCount(name: string, email: string)
    requires '<' !in name && '<' !in email
    ensures Count(name + "<" + email + ">", '<') == 1
  {
    assert name + "<" + email + ">" == name + ("<" + (email + ">"));
    CountConcat(name, "<" + (email + ">"), '<');
    CountConcat("<", email + ">", '<');
    CountConcat(email, ">", '<');
  }

  /** The `<` of the formatted entry sits right after the name. */
  lemma FormattedIndex(name: string, email: string)
    requires '<' !in name
    ensures var entry := name + "<" + email + ">";
      '<' in entry && IndexOf(entry, '<') == |name| &&
      entry[..|name|] == name && entry[|name| + 1..] == email + ">"
  {
    var entry := name + "<" + email + ">";
    assert entry[|name|] == '<';
    assert entry[..|name|] == name;
  }

  /** The email part loses its closing `>` and nothing else. */
  lemma FormattedEmail(email: string)
    requires '>' !in email
    ensures RemoveChar(email + ">", '>') == email
  {
    RemoveCharConcat(email, ">", '>');
    RemoveCharAbsent(email, '>');
    assert RemoveChar(">", '>') == "";
    assert email + "" == email;
  }

  /** The docstring's entry is its name, `<`, its email and `>`. */
  lemma DocstringEntry()
    ensures "John Smith " + "<" + "johnsmith@example.org" + ">" == "John Smith <johnsmith@example.org>"
  {
  }

  /** The example of the method's docstring: the name is NOT trimmed. */
  lemma DocstringExample()
    ensures ParsePersonEntry("John Smith <johnsmith@example.org>")
         == Ok(Person("John Smith ", "johnsmith@example.org"))
  {
    var name, email := "John Smith ", "johnsmith@example.org";
    DocstringEntry();
    FormattedEntryParses(name, email);
  }

  /** An entry with no `<` fails with one part, one with two `<` with three. */
  lemma MalformedEntries()
    ensures ParsePersonEntry("Ada") == Err(UnpackError(1))
    ensures ParsePersonEntry("A <b> <c>") == Err(UnpackError(3))
  {
    assert Count("Ada", '<') == 0;
    assert Count("A <b> <c>", '<') == 2;
  }
}
