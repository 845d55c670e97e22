/** The two Python `str` operations the person-entry parser uses:
    `s.split(c)` and `s.replace(c, "")`, for a one-character separator. */
module Strings {

  /** Number of occurrences of `c` in `s`. */
  function Count(s: string, c: char): (n: nat)
    ensures n == 0 <==> c !in s
    ensures n <= |s|
  {
    if s == [] then 0 else (if s[0] == c then 1 else 0) + Count(s[1..], c)
  }

  /** Position of the first `c` in `s`. */
  function IndexOf(s: string, c: char): (i: nat)
    requires c in s
    ensures i < |s| && s[i] == c
    ensures c !in s[..i]
  {
    if s[0] == c then 0 else 1 + IndexOf(s[1..], c)
  }

  /** Python `s.split(sep)`: the pieces between the occurrences of `sep`,
      one more piece than there are separators, none of them containing it. */
  function Split(s: string, sep: char): (parts: seq<string>)
    ensures |parts| == Count(s, sep) + 1
    ensures forall i :: 0 <= i < |parts| ==> sep !in parts[i]
  {
    if s == [] then [""]
    else
      var rest := Split(s[1..], sep);
      if s[0] == sep then [""] + rest
      else [[s[0]] + rest[0]] + rest[1..]
  }

  /** Python `sep.join(parts)`: the inverse of `Split`. */
  function Join(parts: seq<string>, sep: char): string
  {
    if parts == [] then ""
    else if |parts| == 1 then parts[0]
    else parts[0] + [sep] + Join(parts[1..], sep)
  }

  /** Python `s.replace(c, "")`: every occurrence of `c` is dropped, the
      other characters are kept in order. */
  function RemoveChar(s: string, c: char): (r: string)
    ensures c !in r
    ensures |r| == |s| - Count(s, c)
    ensures forall x :: x != c ==> Count(r, x) == Count(s, x)
  {
    if s == [] then ""
    else if s[0] == c then RemoveChar(s[1..], c)
    else [s[0]] + RemoveChar(s[1..], c)
  }

  /** Joining the pieces of a split gives back the original string. */
  lemma {:induction false} JoinSplit(s: string, sep: char)
    ensures Join(Split(s, sep), sep) == s
  {
    if s != [] {
      JoinSplit(s[1..], sep);
      var rest := Split(s[1..], sep);
      if s[0] == sep {
        assert Join([""] + rest, sep) == "" + [sep] + Join(rest, sep);
      } else if |rest| == 1 {
        assert Split(s, sep) == [[s[0]] + rest[0]];
      } else {
        var parts := Split(s, sep);
        assert parts[1..] == rest[1..];
        assert Join(rest, sep) == rest[0] + [sep] + Join(rest[1..], sep);
      }
    }
  }

  /** Splitting a join of separator-free pieces gives back the pieces. */
  lemma {:induction false} SplitJoin(parts: seq<string>, sep: char)
    requires |parts| >= 1
    requires forall i :: 0 <= i < |parts| ==> sep !in parts[i]
    ensures Split(Join(parts, sep), sep) == parts
  {
    if |parts| == 1 {
      SplitWithout(parts[0], sep);
    } else {
      var tail := Join(parts[1..], sep);
      SplitJoin(parts[1..], sep);
      var t := Split([sep] + tail, sep);
      assert ([sep] + tail)[1..] == tail;
      assert t == [""] + parts[1..];
      assert Join(parts, sep) == parts[0] + ([sep] + tail);
      SplitPrefix(parts[0], [sep] + tail, sep);
      assert parts[0] + "" == parts[0];
      assert t[1..] == parts[1..];
      assert [parts[0]] + parts[1..] == parts;
    }
  }

  /** A string without the separator splits into itself. */
  lemma {:induction false} SplitWithout(s: string, sep: char)
    requires sep !in s
    ensures Split(s, sep) == [s]
  {
    if s != [] {
      SplitWithout(s[1..], sep);
      assert [s[0]] + s[1..] == s;
    }
  }

  /** One step of `Split`: a separator starts a new piece, any other
      character joins the first piece. */
  lemma SplitCons(c: char, s: string, sep: char)
    ensures var t := Split(s, sep);
      Split([c] + s, sep) == if c == sep then [""] + t else [[c] + t[0]] + t[1..]
  {
    assert ([c] + s)[0] == c;
    assert ([c] + s)[1..] == s;
  }

  /** A separator-free prefix is glued onto the first piece. */
  lemma {:induction false} SplitPrefix(a: string, b: string, sep: char)
    requires sep !in a
    ensures Split(a + b, sep) == [a + Split(b, sep)[0]] + Split(b, sep)[1..]
  {
    var t := Split(b, sep);
    if a == [] {
      assert a + b == b;
      assert a + t[0] == t[0];
      assert [t[0]] + t[1..] == t;
    } else {
      var rest := a[1..] + b;
      assert a + b == [a[0]] + rest;
      SplitPrefix(a[1..], b, sep);
      var r := Split(rest, sep);
      SplitCons(a[0], rest, sep);
      assert r[0] == a[1..] + t[0];
      ConsConcat(a, t[0]);
      assert r[1..] == t[1..];
    }
  }

  /** Putting the first character back in front of the rest of `a + u`. */
  lemma ConsConcat(a: string, u: string)
    requires a != []
    ensures [a[0]] + (a[1..] + u) == a + u
  {
    var l, r := [a[0]] + (a[1..] + u), a + u;
    forall i | 0 <= i < |l|
      ensures l[i] == r[i]
    {
      if i > 0 {
        assert l[i] == (a[1..] + u)[i - 1];
      }
    }
  }

  /** With exactly one separator, the two pieces are the text before and
      the text after it. */
  lemma {:induction false} SplitOnce(s: string, sep: char)
    requires Count(s, sep) == 1
    ensures Split(s, sep) == [s[..IndexOf(s, sep)], s[IndexOf(s, sep) + 1..]]
  {
    var i := IndexOf(s, sep);
    var before, after := s[..i], s[i + 1..];
    var tail := [sep] + after;
    assert s == before + tail;
    assert sep !in after by {
      CountConcat(before, tail, sep);
      assert tail[1..] == after;
    }
    assert Split(tail, sep) == [""] + [after] by {
      SplitCons(sep, after, sep);
      SplitWithout(after, sep);
    }
    SplitPrefix(before, tail, sep);
    assert before + "" == before;
  }

  /** Counting distributes over concatenation. */
  lemma {:induction false} CountConcat(a: string, b: string, c: char)
    ensures Count(a + b, c) == Count(a, c) + Count(b, c)
  {
    if a == [] {
      assert a + b == b;
    } else {
      assert (a + b)[1..] == a[1..] + b;
      CountConcat(a[1..], b, c);
    }
  }

  /** Removing a character that does not occur changes nothing; in
      particular removing twice is the same as removing once. */
  lemma {:induction false} RemoveCharAbsent(s: string, c: char)
    requires c !in s
    ensures RemoveChar(s, c) == s
  {
    if s != [] {
      RemoveCharAbsent(s[1..], c);
    }
  }

  /** `replace` works piecewise: it distributes over concatenation. */
  lemma {:induction false} RemoveCharConcat(a: string, b: string, c: char)
    ensures RemoveChar(a + b, c) == RemoveChar(a, c) + RemoveChar(b, c)
  {
    if a == [] {
      assert a + b == b;
    } else {
      assert (a + b)[1..] == a[1..] + b;
      RemoveCharConcat(a[1..], b, c);
      if a[0] != c {
        ConsAppend(a[0], RemoveChar(a[1..], c), RemoveChar(b, c));
      }
    }
  }

  /** Consing onto a concatenation conses onto its first part. */
  lemma ConsAppend(x: char, u: string, v: string)
    ensures [x] + (u + v) == ([x] + u) + v
  {
  }
}
