/** Where the "." and ".." parts of a name lead, as equations between whole names. */
module FileNameDots {
  import opened FileName

  /** A part of a name that stands for itself. */
  predicate Plain(c: string) { '/' !in c && c != "." && c != ".." }

  ghost predicate Directories(dirs: seq<string>) {
    forall c | c in dirs :: Plain(c)
  }

  /** A name below directories without dot parts is resolved from those directories. */
  lemma {:induction false} ResolveBelow(dirs: seq<string>, rest: string)
    requires Directories(dirs)
    ensures Resolve([], (Text(dirs) + rest)[1..]) == Resolve(dirs, rest)
  {
    hide Resolve;
    hide Text;
    if dirs == [] {
      TextRoot();
      assert (Text(dirs) + rest)[1..] == rest;
    } else {
      var n := |dirs| - 1;
      var c := dirs[n];
      assert Plain(c);
      ResolveBelow(dirs[..n], c + [PATHSEP] + rest);
      ResolveStep(dirs[..n], c, rest);
      TextSnoc(dirs);
      assert Text(dirs) + rest == Text(dirs[..n]) + (c + [PATHSEP] + rest);
      assert dirs[..n] + [c] == dirs;
    }
  }

  lemma NormalizeBelow(cwd: string, dirs: seq<string>, rest: string)
    requires IsAbsolute(cwd) && Directories(dirs)
    ensures Normalize(cwd, Text(dirs) + rest) == Resolve(dirs, rest)
  {
    hide Resolve;
    hide Text;
    ResolveBelow(dirs, rest);
  }

  /** A name without dot parts stays as it is. */
  lemma PlainName(cwd: string, dirs: seq<string>, c: string)
    requires IsAbsolute(cwd) && Directories(dirs) && Plain(c)
    ensures Normalize(cwd, Text(dirs) + c) == Text(dirs) + c
  {
    hide Resolve;
    hide Text;
    NormalizeBelow(cwd, dirs, c);
    ResolveLast(dirs, c);
  }

  /** "c/.." at the end of a name stands for the directory in which c lies, written without a slash at its end. */
  lemma ParentAtEnd(cwd: string, dirs: seq<string>, c: string)
    requires IsAbsolute(cwd) && Directories(dirs) && Plain(c)
    ensures Normalize(cwd, Text(dirs) + c + "/..") == if dirs == [] then "/" else Text(dirs)[..|Text(dirs)| - 1]
  {
    hide Resolve;
    hide Text;
    var rest := c + [PATHSEP] + "..";
    assert Text(dirs) + c + "/.." == Text(dirs) + rest;
    NormalizeBelow(cwd, dirs, rest);
    ResolveStep(dirs, c, "..");
    ResolveLast(dirs + [c], "..");
    assert (dirs + [c])[..|dirs|] == dirs;
  }

  /** "c/../" inside a name can be left out. */
  lemma ParentInside(cwd: string, dirs: seq<string>, c: string, rest: string)
    requires IsAbsolute(cwd) && Directories(dirs) && Plain(c)
    ensures Normalize(cwd, Text(dirs) + c + "/../" + rest) == Normalize(cwd, Text(dirs) + rest)
  {
    hide Resolve;
    hide Text;
    var up := ".." + [PATHSEP] + rest;
    assert Text(dirs) + c + "/../" + rest == Text(dirs) + (c + [PATHSEP] + up);
    NormalizeBelow(cwd, dirs, c + [PATHSEP] + up);
    NormalizeBelow(cwd, dirs, rest);
    ResolveStep(dirs, c, up);
    ResolveStep(dirs + [c], "..", rest);
    assert (dirs + [c])[..|dirs|] == dirs;
  }

  /** The root is its own parent. */
  lemma ParentOfRoot(cwd: string, rest: string)
    requires IsAbsolute(cwd)
    ensures Normalize(cwd, "/../" + rest) == Normalize(cwd, "/" + rest) && Normalize(cwd, "/..") == "/"
  {
    hide Resolve;
    var up := ".." + [PATHSEP] + rest;
    assert ("/../" + rest)[1..] == up && ("/" + rest)[1..] == rest && "/.."[1..] == "..";
    ResolveStep([], "..", rest);
    ResolveLast([], "..");
  }

  /** "./" inside a name can be left out, and "." at the end stands for the directory. */
  lemma SameDirectory(cwd: string, dirs: seq<string>, rest: string)
    requires IsAbsolute(cwd) && Directories(dirs)
    ensures Normalize(cwd, Text(dirs) + "./" + rest) == Normalize(cwd, Text(dirs) + rest)
    ensures Normalize(cwd, Text(dirs) + ".") == if dirs == [] then "/" else Text(dirs)[..|Text(dirs)| - 1]
  {
    hide Resolve;
    hide Text;
    var here := "." + [PATHSEP] + rest;
    assert Text(dirs) + "./" + rest == Text(dirs) + here;
    NormalizeBelow(cwd, dirs, here);
    NormalizeBelow(cwd, dirs, rest);
    NormalizeBelow(cwd, dirs, ".");
    ResolveStep(dirs, ".", rest);
    ResolveLast(dirs, ".");
  }

  /** A relative name means the absolute one that has the current directory, closed by one slash, in front. */
  lemma RelativeName(cwd: string, path: string)
    requires IsAbsolute(cwd) && !IsAbsolute(path) && Clean(DirsOf(WithSlash(cwd)))
    ensures Normalize(cwd, path) == Normalize(cwd, (if cwd[|cwd| - 1] == '/' then cwd else cwd + "/") + path)
  {
    hide Resolve;
    hide Text;
    hide DirsOf;
    var dirs := DirsOf(WithSlash(cwd));
    BaseText(cwd);
    NormalizeBelow(cwd, dirs, path);
  }
}
