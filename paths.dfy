/**
 The two string operations the loader performs on paths: Python's
 `str.split('/')` followed by taking the last piece (the basename of a
 manifest `Link`), and POSIX `os.path.join`.
 */
module Paths {

  /** The path separator of POSIX `os.path` and the character `Link` is split on. */
  const Sep: char := '/'

  /** `sep.join(pieces)`: the pieces with one `sep` between each neighbouring pair. */
  function JoinWith(pieces: seq<string>, sep: char): string
    requires |pieces| >= 1
    decreases |pieces|
  {
    if |pieces| == 1 then pieces[0] else pieces[0] + [sep] + JoinWith(pieces[1..], sep)
  }

  /**
   Python's `s.split(sep)` for a one-character separator: the maximal
   separator-free pieces, in order. It never returns an empty list
   (`"".split("/") == [""]`), no piece holds the separator, and joining the
   pieces back with the separator gives `s` again.
   */
  function Split(s: string, sep: char): (pieces: seq<string>)
    ensures |pieces| >= 1
    ensures forall i :: 0 <= i < |pieces| ==> sep !in pieces[i]
    ensures JoinWith(pieces, sep) == s
    decreases |s|
  {
    if s == [] then
      [[]]
    else if s[0] == sep then
      var rest := Split(s[1..], sep);
      assert s == [sep] + s[1..];
      [[]] + rest
    else
      var rest := Split(s[1..], sep);
      var pieces := [[s[0]] + rest[0]] + rest[1..];
      assert pieces[1..] == rest[1..];
      assert s == [s[0]] + s[1..];
      pieces
  }

  /** `link.split('/')[-1]`: the text after the last `/`, or all of `link` when it has none. */
  function Basename(link: string): (b: string)
    ensures Sep !in b
  {
    var pieces := Split(link, Sep);
    pieces[|pieces| - 1]
  }

  /**
   The basename is exactly the text after the last separator: it is a
   suffix of `link` with no separator in it, and either it is all of `link`
   (which then has no separator) or the character just before it is a
   separator.
   */
  lemma {:induction false} BasenameIsTextAfterLastSep(link: string)
    ensures |Basename(link)| <= |link|
    ensures link[|link| - |Basename(link)|..] == Basename(link)
    ensures Sep in link <==> |Basename(link)| < |link|
    ensures |Basename(link)| < |link| ==> link[|link| - |Basename(link)| - 1] == Sep
    decreases |link|
  {
    if link != [] {
      var tail := link[1..];
      BasenameIsTextAfterLastSep(tail);
      BasenameStep(link);
      assert link == [link[0]] + tail;
    }
  }

  /**
   How the basename of a non-empty string relates to that of its tail: it is
   the whole string when the string has no separator, and otherwise the
   basename of the tail, which then holds a separator unless the string
   starts with one.
   */
  lemma BasenameStep(link: string)
    requires link != []
    ensures Sep !in link ==> Basename(link) == link
    ensures Sep in link ==> Basename(link) == Basename(link[1..])
  {
    var tail := link[1..];
    var rest := Split(tail, Sep);
    assert link == [link[0]] + tail;
    if link[0] == Sep {
      assert Split(link, Sep) == [[]] + rest;
    } else if |rest| == 1 {
      assert Split(link, Sep) == [[link[0]] + rest[0]];
      assert rest[0] == tail;
    } else {
      assert Split(link, Sep) == [[link[0]] + rest[0]] + rest[1..];
      assert tail == rest[0] + [Sep] + JoinWith(rest[1..], Sep);
      assert tail[|rest[0]|] == Sep;
    }
  }

  /** A basename is its own basename: a string without separator splits into one piece. */
  lemma BasenameOfPlain(name: string)
    requires Sep !in name
    ensures Basename(name) == name
  {
    BasenameIsTextAfterLastSep(name);
  }

  /** Whatever precedes the last separator does not affect the basename. */
  lemma BasenameAfterSep(prefix: string, name: string)
    requires Sep !in name
    ensures Basename(prefix + [Sep] + name) == name
  {
    var s := prefix + [Sep] + name;
    var b := Basename(s);
    BasenameIsTextAfterLastSep(s);
    assert s[|prefix|] == Sep;
    assert |b| == |name|;
    assert s[|s| - |name|..] == name;
  }

  /**
   One step of POSIX `os.path.join(path, part)`. The result always ends with
   `part`; an absolute `part` replaces `path`, and any other keeps `path` as
   a prefix, adding at most one separator in between.
   */
  function JoinStep(path: string, part: string): (r: string)
    ensures |part| <= |r| && r[|r| - |part|..] == part
    ensures (part == [] || part[0] != Sep) ==> path <= r && |r| <= |path| + 1 + |part|
  {
    if |part| > 0 && part[0] == Sep then part
    else if path == [] || path[|path| - 1] == Sep then path + part
    else path + [Sep] + part
  }

  /**
   POSIX `os.path.join(first, *parts)`: the components joined left to right.
   The result ends with the last component, and starts with `first` unless
   some component is absolute.
   */
  function PathJoin(first: string, parts: seq<string>): (r: string)
    ensures parts == [] ==> r == first
    ensures parts != [] ==> |parts[|parts| - 1]| <= |r| && r[|r| - |parts[|parts| - 1]|..] == parts[|parts| - 1]
    ensures (forall i :: 0 <= i < |parts| ==> parts[i] == [] || parts[i][0] != Sep) ==> first <= r
    decreases |parts|
  {
    if parts == [] then first
    else
      assert forall i :: 0 <= i < |parts| - 1 ==> parts[1..][i] == parts[i + 1];
      PathJoin(JoinStep(first, parts[0]), parts[1..])
  }

  /**
   A directory as a path prefix: empty for the current directory, otherwise
   ending in a separator, one being added only when it is missing.
   */
  function DirPrefix(dir: string): (p: string)
    ensures p == [] || p[|p| - 1] == Sep
    ensures dir <= p && |p| <= |dir| + 1
    ensures p == [] <==> dir == []
  {
    if dir == [] || dir[|dir| - 1] == Sep then dir else dir + [Sep]
  }

  /**
   `os.path.join(dir, sub, name)` where `sub` is a plain relative segment and
   `name` is not absolute: one separator between each pair of components,
   and none added after a `dir` that already ends in one.
   */
  lemma JoinThree(dir: string, sub: string, name: string)
    requires sub != [] && Sep !in sub
    requires name == [] || name[0] != Sep
    ensures PathJoin(dir, [sub, name]) == DirPrefix(dir) + sub + [Sep] + name
  {
    var first := JoinStep(dir, sub);
    assert first == DirPrefix(dir) + sub;
    assert first[|first| - 1] == sub[|sub| - 1];
    assert [sub, name][1..] == [name] && [name][1..] == [];
    assert PathJoin(dir, [sub, name]) == PathJoin(first, [name]);
    assert PathJoin(first, [name]) == JoinStep(first, name);
    assert JoinStep(first, name) == first + [Sep] + name;
  }

  /** Joining a last component that has no separator ends the path with that component as basename. */
  lemma BasenameOfJoin(first: string, parts: seq<string>, name: string)
    requires Sep !in name
    ensures Basename(PathJoin(first, parts + [name])) == name
    decreases |parts|
  {
    if parts == [] {
      assert PathJoin(first, [name]) == JoinStep(first, name);
      var path := first;
      assert name == [] || name[0] != Sep;
      if path == [] {
        assert JoinStep(path, name) == name;
        BasenameOfPlain(name);
      } else if path[|path| - 1] == Sep {
        assert path + name == path[..|path| - 1] + [Sep] + name;
        BasenameAfterSep(path[..|path| - 1], name);
      } else {
        BasenameAfterSep(path, name);
      }
    } else {
      assert (parts + [name])[1..] == parts[1..] + [name];
      BasenameOfJoin(JoinStep(first, parts[0]), parts[1..], name);
    }
  }

  /** A `Link` that ends in a separator has the empty basename. */
  lemma BasenameOfTrailingSep(link: string)
    requires link != [] && link[|link| - 1] == Sep
    ensures Basename(link) == []
  {
    BasenameIsTextAfterLastSep(link);
  }
}
