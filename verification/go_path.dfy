/** The three functions of Go's `path/filepath` the command-line tool relies on, for
    '/'-separated (Unix) paths: `Ext`, `Clean` and two-argument `Join`. */
module GoPath {
  import opened Text

  const Separator := '/'

  // ---------------------------------------------------------------- Ext

  /** `filepath.Ext`: scanning back from the end, the suffix starting at the last '.'
      of the final element, or "" when that element has no '.'. */
  function Ext(path: string): (r: string)
    ensures |r| <= |path| && path[|path| - |r|..] == r
    ensures r != "" ==> r[0] == '.' && Separator !in r && '.' !in r[1..]
    ensures r == "" ==>
              forall i :: 0 <= i < |path| && path[i] == '.' ==> Separator in path[i + 1..]
    decreases |path|
  {
    if |path| == 0 then ""
    else
      var c := path[|path| - 1];
      var init := path[..|path| - 1];
      if c == Separator then ""
      else if c == '.' then "."
      else
        var e := Ext(init);
        if e == "" then
          assert forall i :: 0 <= i < |init| && path[i] == '.' ==> Separator in path[i + 1..] by {
            forall i | 0 <= i < |init| && path[i] == '.' ensures Separator in path[i + 1..] {
              assert init[i] == '.';
              var j :| i + 1 <= j < |init| && init[j] == Separator;
              assert path[j] == Separator;
            }
          }
          ""
        else
          assert path[|path| - |e| - 1..] == e + [c];
          e + [c]
  }

  /** Only the final element matters: whatever precedes a separator has no say. */
  lemma {:induction false} ExtOfLastElement(prefix: string, elem: string)
    requires prefix == "" || prefix[|prefix| - 1] == Separator
    requires Separator !in elem
    ensures Ext(prefix + elem) == Ext(elem)
    decreases |elem|
  {
    var p := prefix + elem;
    if |elem| > 0 {
      var init := elem[..|elem| - 1];
      ExtOfLastElement(prefix, init);
      assert p[..|p| - 1] == prefix + init;
      ExtUnfold(p);
      ExtUnfold(elem);
    } else {
      assert p == prefix;
    }
  }

  /** One step of the backward scan. */
  lemma ExtUnfold(path: string)
    requires |path| > 0
    ensures var c := path[|path| - 1]; var e := Ext(path[..|path| - 1]);
      Ext(path) == if c == Separator then "" else if c == '.' then "."
                   else if e == "" then "" else e + [c]
  {
  }

  /** A path ending in '.' and a word without '.' or separator has that extension. */
  lemma ExtOfDottedSuffix(s: string, w: string)
    requires '.' !in w && Separator !in w
    requires |w| + 1 <= |s| && s[|s| - |w| - 1..] == ['.'] + w
    ensures Ext(s) == ['.'] + w
  {
    var r := Ext(s);
    var d := |s| - |w| - 1;
    assert s[d] == '.';
    if r == "" {
      assert false;
    }
    if |r| > |w| + 1 {
      assert false;
    }
    if |r| < |w| + 1 {
      assert false;
    }
  }

  /** A name ending in ".sql" has the extension ".sql", whatever comes before. */
  lemma ExtOfSqlName(s: string)
    requires EndsWith(s, ".sql")
    ensures Ext(s) == ".sql"
  {
    ExtOfDottedSuffix(s, "sql");
  }

  /** The extensions the restore command meets: only the last '.' counts, case is kept,
      and a '.' in a directory name is no extension. */
  lemma ExtExamples()
    ensures Ext("backup.sql.gz") == ".gz"
    ensures Ext("backup.GZ") == ".GZ"
    ensures Ext("dump.gz/backup") == ""
  {
    LastDotExample();
    UpperCaseExample();
    DirectoryDotIsNoExt();
  }

  lemma LastDotExample()
    ensures Ext("backup.sql.gz") == ".gz"
  {
    var s := "backup.sql.gz";
    assert s[|s| - 3..] == ".gz";
    ExtOfDottedSuffix(s, "gz");
  }

  lemma UpperCaseExample()
    ensures Ext("backup.GZ") == ".GZ"
  {
    var s := "backup.GZ";
    assert s[|s| - 3..] == ".GZ";
    ExtOfDottedSuffix(s, "GZ");
  }

  lemma DirectoryDotIsNoExt()
    ensures Ext("dump.gz/backup") == ""
  {
    DotlessAfterSeparator("dump.gz", "backup");
    assert "dump.gz" + [Separator] + "backup" == "dump.gz/backup";
  }

  /** A dotless final element means no extension, whatever dots the directory has. */
  lemma DotlessAfterSeparator(dir: string, elem: string)
    requires '.' !in elem && Separator !in elem
    ensures Ext(dir + [Separator] + elem) == ""
  {
    var prefix := dir + [Separator];
    assert dir + [Separator] + elem == prefix + elem;
    ExtOfLastElement(prefix, elem);
    ExtWithoutDot(elem);
  }

  /** An element without '.' has no extension. */
  lemma ExtWithoutDot(s: string)
    requires '.' !in s
    ensures Ext(s) == ""
  {
  }

  // ---------------------------------------------------------------- Clean

  /** One element of `filepath.Clean`'s lexical processing: empty and "." elements vanish,
      ".." removes the previous real element (or stays, at the front of a relative path,
      or vanishes, at the root), any other element is kept. */
  function CleanStep(acc: seq<string>, e: string, rooted: bool): (r: seq<string>)
    ensures e != "" && e != "." && e != ".." ==> r == acc + [e]
  {
    if e == "" || e == "." then acc
    else if e == ".." then
      if |acc| > 0 && acc[|acc| - 1] != ".." then acc[..|acc| - 1]
      else if rooted then acc
      else acc + [".."]
    else acc + [e]
  }

  function CleanElements(elems: seq<string>, rooted: bool, acc: seq<string>): seq<string>
    decreases |elems|
  {
    if |elems| == 0 then acc
    else CleanElements(elems[1..], rooted, CleanStep(acc, elems[0], rooted))
  }

  lemma {:induction false} CleanElementsSnoc(elems: seq<string>, e: string, rooted: bool,
                                             acc: seq<string>)
    ensures CleanElements(elems + [e], rooted, acc)
         == CleanStep(CleanElements(elems, rooted, acc), e, rooted)
    decreases |elems|
  {
    if |elems| == 0 {
      assert elems + [e] == [e];
    } else {
      assert (elems + [e])[1..] == elems[1..] + [e];
      CleanElementsSnoc(elems[1..], e, rooted, CleanStep(acc, elems[0], rooted));
    }
  }

  /** `filepath.Clean`: the shortest lexically equivalent path; "." for the empty result. */
  function Clean(path: string): string {
    var rooted := |path| > 0 && path[0] == Separator;
    CleanParts(Split(path, Separator), rooted)
  }

  /** The pieces of a path between separators, cleaned and joined again. */
  function CleanParts(parts: seq<string>, rooted: bool): string {
    Rooted(rooted, Join(CleanElements(parts, rooted, []), Separator))
  }

  /** The cleaned elements joined, behind the root separator when there is one. */
  function Rooted(rooted: bool, body: string): string {
    if rooted then [Separator] + body
    else if body == "" then "."
    else body
  }

  /** Cleaning "" gives ".", a ".." cancels the element before it, and at the root a
      ".." has nothing to cancel. */
  lemma CleanExamples()
    ensures Clean("") == "."
    ensures Clean("a/..") == "."
    ensures Clean("/..") == "/"
  {
    assert "a/.." == "a" + [Separator] + "..";
    SplitAtSeparator("a", "..", Separator);
    SplitNoSeparator("..", Separator);
    assert Split("a/..", Separator) == ["a", ".."];
    assert CleanElements(["a", ".."], false, []) == CleanElements([".."], false, ["a"]);
    assert CleanElements([".."], false, ["a"]) == CleanElements([], false, []);
    assert "/.." == "" + [Separator] + "..";
    SplitAtSeparator("", "..", Separator);
    assert Split("/..", Separator) == ["", ".."];
  }

  /** `filepath.Join(dir, name)`: the empty arguments are dropped and the rest joined with
      the separator and cleaned; "" when both are empty. */
  function JoinPath(dir: string, name: string): string {
    if dir != "" then Clean(dir + [Separator] + name)
    else if name != "" then Clean(name)
    else ""
  }

  /** The text after the last separator of a path. */
  function FinalElement(path: string): (e: string)
    ensures Separator !in e
  {
    var parts := Split(path, Separator);
    parts[|parts| - 1]
  }

  /** `e` ends `c`, and either is all of `c` or follows a separator. */
  predicate EndsWithElement(c: string, e: string) {
    |e| <= |c| && c[|c| - |e|..] == e && (|e| == |c| || c[|c| - |e| - 1] == Separator)
  }

  /** A real final element survives cleaning, after a separator or on its own. */
  lemma CleanKeepsLastElement(path: string)
    requires var e := FinalElement(path); e != "" && e != "." && e != ".."
    ensures EndsWithElement(Clean(path), FinalElement(path))
  {
    var rooted := |path| > 0 && path[0] == Separator;
    CleanPartsKeepsLast(Split(path, Separator), rooted);
  }

  lemma CleanPartsKeepsLast(parts: seq<string>, rooted: bool)
    requires |parts| >= 1
    requires var e := parts[|parts| - 1]; e != "" && e != "." && e != ".."
    ensures EndsWithElement(CleanParts(parts, rooted), parts[|parts| - 1])
  {
    var e := parts[|parts| - 1];
    var init := parts[..|parts| - 1];
    assert parts == init + [e];
    CleanElementsSnoc(init, e, rooted, []);
    var stack := CleanElements(init, rooted, []);
    assert CleanElements(parts, rooted, []) == CleanStep(stack, e, rooted) == stack + [e];
    var body := Join(stack + [e], Separator);
    assert CleanParts(parts, rooted) == Rooted(rooted, body);
    JoinEndsWith(stack, e, Separator);
    RootedKeepsSuffix(rooted, body, e);
  }

  lemma RootedKeepsSuffix(rooted: bool, b: string, e: string)
    requires e != "" && EndsWithElement(b, e)
    ensures EndsWithElement(Rooted(rooted, b), e)
  {
    if rooted {
      var c := [Separator] + b;
      assert c[|c| - |e|..] == b[|b| - |e|..];
      if |e| < |b| {
        assert c[|c| - |e| - 1] == b[|b| - |e| - 1];
      }
    }
  }

  /** The last piece of a join ends it, after a separator unless it is alone. */
  lemma JoinEndsWith(stack: seq<string>, e: string, sep: char)
    requires sep == Separator
    ensures EndsWithElement(Join(stack + [e], sep), e)
  {
    if |stack| == 0 {
      assert stack + [e] == [e];
    } else {
      JoinSnoc(stack, e, sep);
    }
  }

  /** The final element of a path ending in ".sql" ends in ".sql" too. */
  lemma LastPieceKeepsSql(name: string)
    requires EndsWith(name, ".sql")
    ensures EndsWith(FinalElement(name), ".sql")
  {
    var e := FinalElement(name);
    SplitLast(name, Separator);
    if |e| >= 4 {
      assert e[|e| - 4..] == name[|name| - 4..];
    }
  }

  /** Joining with a directory does not change the final element of a name. */
  lemma JoinedLastPiece(dir: string, name: string)
    ensures FinalElement(dir + [Separator] + name) == FinalElement(name)
  {
    SplitConcat(dir, name, Separator);
  }

  /** A joined path ending in ".sql" keeps the extension ".sql" after cleaning. */
  lemma JoinPathKeepsSqlExt(dir: string, name: string)
    requires EndsWith(name, ".sql")
    ensures Ext(JoinPath(dir, name)) == ".sql"
  {
    var path := if dir != "" then dir + [Separator] + name else name;
    assert JoinPath(dir, name) == Clean(path);
    var e := FinalElement(name);
    LastPieceKeepsSql(name);
    if dir != "" {
      JoinedLastPiece(dir, name);
    }
    CleanKeepsLastElement(path);
    ExtOfFinalElement(Clean(path), e);
    ExtOfSqlName(e);
  }

  /** A path ending in a separator-free element after a separator has that element's
      extension. */
  lemma ExtOfFinalElement(c: string, e: string)
    requires Separator !in e && EndsWithElement(c, e)
    ensures Ext(c) == Ext(e)
  {
    var prefix := c[..|c| - |e|];
    assert c == prefix + e;
    ExtOfLastElement(prefix, e);
  }
}
