/** Path normalisation of src/file.c: a name becomes absolute and loses its "." and ".." parts, in
    place, in a buffer of characters that ends at the first NUL.

    The reference meaning is a stack of path components. */
module FileName {

  const PATHSEP: char := '/'
  const NUL: char := '\0'
  const FILENAME_MAX: int := 4096

  // ------------------------------------------------------------------ C strings

  /** The string in a buffer: everything before the first NUL. */
  function CStr(a: seq<char>): (s: string)
    ensures |s| <= |a| && s == a[..|s|] && NUL !in s && (|s| < |a| ==> a[|s|] == NUL)
  {
    if a == [] || a[0] == NUL then "" else [a[0]] + CStr(a[1..])
  }

  lemma {:induction false} CStrIs(a: seq<char>, n: nat)
    requires n < |a| && a[n] == NUL && NUL !in a[..n]
    ensures CStr(a) == a[..n]
  {
    var s := CStr(a);
    assert forall i | 0 <= i < n :: a[i] in a[..n];
    assert forall i | 0 <= i < |s| :: a[i] in s;
  }

  /** Index of the last `c`, or -1. */
  function LastIndex(s: string, c: char): (i: int)
    ensures -1 <= i < |s| && (i >= 0 ==> s[i] == c) && forall k | i < k < |s| :: s[k] != c
  {
    if s == "" then -1 else if s[|s| - 1] == c then |s| - 1 else LastIndex(s[..|s| - 1], c)
  }

  // ------------------------------------------------------------------ paths as components

  function FirstSlash(s: string): (i: nat)
    ensures i <= |s| && PATHSEP !in s[..i] && (i < |s| ==> s[i] == PATHSEP)
  {
    if s == "" || s[0] == PATHSEP then 0 else
      var i := FirstSlash(s[1..]) + 1;
      assert s[..i] == [s[0]] + s[1..][..i - 1];
      i
  }

  /** The parts of a string between its slashes; there is always at least one. */
  function Split(s: string): (r: seq<string>)
    ensures |r| > 0 && forall c | c in r :: PATHSEP !in c
    decreases |s|
  {
    var i := FirstSlash(s);
    if i == |s| then [s] else [s[..i]] + Split(s[i + 1..])
  }

  /** A directory: the root and the components below it, each closed by a slash. */
  function Text(dirs: seq<string>): (s: string)
    ensures |s| > 0 && s[0] == PATHSEP && s[|s| - 1] == PATHSEP
  {
    if dirs == [] then [PATHSEP] else Text(dirs[..|dirs| - 1]) + dirs[|dirs| - 1] + [PATHSEP]
  }

  function Pop(dirs: seq<string>): seq<string> {
    if dirs == [] then [] else dirs[..|dirs| - 1]
  }

  function Enter(dirs: seq<string>, c: string): seq<string> {
    if c == "." then dirs else if c == ".." then Pop(dirs) else dirs + [c]
  }

  function EnterAll(dirs: seq<string>, cs: seq<string>): seq<string>
    decreases |cs|
  {
    if cs == [] then dirs else EnterAll(Enter(dirs, cs[0]), cs[1..])
  }

  /** A directory without its closing slash; the root keeps it. */
  function Bare(dirs: seq<string>): string {
    if dirs == [] then [PATHSEP] else Text(dirs)[..|Text(dirs)| - 1]
  }

  /** The last component names a file, unless it is a dot component, which names a directory. */
  function Finish(dirs: seq<string>, c: string): string {
    if c == "." then Bare(dirs) else if c == ".." then Bare(Pop(dirs)) else Text(dirs) + c
  }

  function Resolve(dirs: seq<string>, path: string): string {
    var cs := Split(path);
    Finish(EnterAll(dirs, cs[..|cs| - 1]), cs[|cs| - 1])
  }

  function WithSlash(s: string): string {
    if s != "" && s[|s| - 1] != PATHSEP then s + [PATHSEP] else s
  }

  predicate IsAbsolute(s: string) { s != "" && s[0] == PATHSEP }

  /** The directories of an absolute path that ends with a slash. */
  function DirsOf(s: string): seq<string>
    requires IsAbsolute(s)
  {
    var cs := Split(s[1..]);
    cs[..|cs| - 1]
  }

  /** The absolute name of `path`, seen from the directory `cwd`. */
  function Normalize(cwd: string, path: string): string
    requires IsAbsolute(cwd)
  {
    if IsAbsolute(path) then Resolve([], path[1..]) else Resolve(DirsOf(WithSlash(cwd)), path)
  }

  // ------------------------------------------------------------------ laws

  predicate Clean(cs: seq<string>) { "." !in cs && ".." !in cs }

  predicate Parts(cs: seq<string>) { forall c | c in cs :: PATHSEP !in c }

  lemma SplitFirst(c: string, rest: string)
    requires PATHSEP !in c
    ensures Split(c + [PATHSEP] + rest) == [c] + Split(rest)
  {
    var s := c + [PATHSEP] + rest;
    var i := FirstSlash(s);
    assert forall k | 0 <= k < |c| :: s[k] in c;
    assert forall k | 0 <= k < i :: s[k] in s[..i];
    assert s[|c|] == PATHSEP;
    assert s[..i] == c && s[i + 1..] == rest;
  }

  lemma SplitWhole(c: string)
    requires PATHSEP !in c
    ensures Split(c) == [c]
  {
    var i := FirstSlash(c);
    assert forall k | 0 <= k < |c| :: c[k] in c;
    assert c[..|c|] == c;
  }

  /** Splitting a directory text gives its components back. */
  lemma {:induction false} SplitText(dirs: seq<string>, rest: string)
    requires Parts(dirs)
    ensures Split((Text(dirs) + rest)[1..]) == dirs + Split(rest)
  {
    hide Split;
    hide Text;
    if dirs == [] {
      TextRoot();
      assert (Text(dirs) + rest)[1..] == rest;
    } else {
      var n := |dirs| - 1;
      var c := dirs[n];
      SplitText(dirs[..n], c + [PATHSEP] + rest);
      SplitFirst(c, rest);
      TextSnoc(dirs);
      assert Text(dirs) + rest == Text(dirs[..n]) + (c + [PATHSEP] + rest);
      assert dirs[..n] + ([c] + Split(rest)) == dirs + Split(rest);
    }
  }

  lemma TextSnoc(dirs: seq<string>)
    requires dirs != []
    ensures var n := |dirs| - 1; Text(dirs) == Text(dirs[..n]) + dirs[n] + [PATHSEP]
  {
  }

  lemma {:induction false} TextCons(c: string, dirs: seq<string>)
    ensures Text([c] + dirs) == [PATHSEP] + c + Text(dirs)
  {
    if dirs == [] {
      assert ([c] + dirs)[..0] == [];
    } else {
      var n := |dirs| - 1;
      TextCons(c, dirs[..n]);
      TextSnoc(dirs);
      TextSnoc([c] + dirs);
      hide Text;
      assert ([c] + dirs)[..n + 1] == [c] + dirs[..n] && ([c] + dirs)[n + 1] == dirs[n];
      var t, u, e := Text(dirs[..n]), Text([c] + dirs[..n]), dirs[n] + [PATHSEP];
      assert u + dirs[n] + [PATHSEP] == u + e && t + dirs[n] + [PATHSEP] == t + e;
      assert ([PATHSEP] + c + t) + e == [PATHSEP] + c + (t + e);
    }
  }

  lemma SplitCons(s: string, i: nat)
    requires i == FirstSlash(s) < |s|
    ensures var cs, cr := Split(s), Split(s[i + 1..]);
            cs[..|cs| - 1] == [s[..i]] + cr[..|cr| - 1] && cs[|cs| - 1] == cr[|cr| - 1]
  {
    SplitStep(s, i);
    hide Split;
  }

  lemma SplitStep(s: string, i: nat)
    requires i == FirstSlash(s) < |s|
    ensures Split(s) == [s[..i]] + Split(s[i + 1..])
  {
  }

  /** Joining the parts of a string gives it back. */
  lemma {:induction false} JoinSplit(s: string)
    ensures var cs := Split(s); Text(cs[..|cs| - 1]) + cs[|cs| - 1] == [PATHSEP] + s
    decreases |s|
  {
    hide Split;
    hide Text;
    var i := FirstSlash(s);
    if i == |s| {
      SplitWhole(s[..i]);
      assert s[..i] == s;
      TextRoot();
    } else {
      var rest := s[i + 1..];
      var cr := Split(rest);
      JoinSplit(rest);
      SplitCons(s, i);
      TextCons(s[..i], cr[..|cr| - 1]);
      assert [PATHSEP] + s == [PATHSEP] + s[..i] + ([PATHSEP] + rest);
    }
  }

  lemma TextRoot()
    ensures Text([]) == [PATHSEP]
  {
  }

  lemma {:induction false} EnterClean(dirs: seq<string>, cs: seq<string>)
    requires Clean(cs)
    ensures EnterAll(dirs, cs) == dirs + cs
    decreases |cs|
  {
    if cs != [] {
      assert Clean(cs[1..]);
      EnterClean(dirs + [cs[0]], cs[1..]);
      assert Enter(dirs, cs[0]) == dirs + [cs[0]];
      assert dirs + [cs[0]] + cs[1..] == dirs + cs;
    }
  }

  lemma {:induction false} EnterKeepsClean(dirs: seq<string>, cs: seq<string>)
    requires Clean(dirs) && Parts(dirs) && Parts(cs)
    ensures Clean(EnterAll(dirs, cs)) && Parts(EnterAll(dirs, cs))
    decreases |cs|
  {
    if cs != [] {
      assert cs[0] in cs;
      EnterKeepsClean(Enter(dirs, cs[0]), cs[1..]);
    }
  }

  lemma BareSplit(dirs: seq<string>)
    requires Parts(dirs)
    ensures IsAbsolute(Bare(dirs)) && Split(Bare(dirs)[1..]) == if dirs == [] then [""] else dirs
  {
    hide Split;
    hide Text;
    if dirs == [] {
      TextRoot();
      assert Bare(dirs)[1..] == "";
      SplitWhole("");
    } else {
      var n := |dirs| - 1;
      assert dirs[n] in dirs;
      TextSnoc(dirs);
      SplitText(dirs[..n], dirs[n]);
      SplitWhole(dirs[n]);
      assert Bare(dirs) == Text(dirs[..n]) + dirs[n];
      assert dirs[..n] + [dirs[n]] == dirs;
    }
  }

  /** The result of a resolution is absolute and has no dot components. */
  lemma ResolveClean(dirs: seq<string>, path: string)
    requires Clean(dirs) && Parts(dirs)
    ensures IsAbsolute(Resolve(dirs, path)) && Clean(Split(Resolve(dirs, path)[1..]))
  {
    var cs := Split(path);
    var init, last := cs[..|cs| - 1], cs[|cs| - 1];
    EnterKeepsClean(dirs, init);
    var ds := EnterAll(dirs, init);
    if last == "." {
      BareSplit(ds);
    } else if last == ".." {
      BareSplit(Pop(ds));
    } else {
      SplitText(ds, last);
      SplitWhole(last);
    }
  }

  lemma NormalizeClean(cwd: string, path: string)
    requires IsAbsolute(cwd) && (IsAbsolute(path) || Clean(DirsOf(WithSlash(cwd))))
    ensures IsAbsolute(Normalize(cwd, path)) && Clean(Split(Normalize(cwd, path)[1..]))
  {
    if IsAbsolute(path) {
      ResolveClean([], path[1..]);
    } else {
      ResolveClean(DirsOf(WithSlash(cwd)), path);
    }
  }

  /** Exactly the absolute paths without dot components are left alone. */
  lemma NormalizeFixed(cwd: string, path: string)
    requires IsAbsolute(cwd) && (IsAbsolute(path) || Clean(DirsOf(WithSlash(cwd))))
    ensures Normalize(cwd, path) == path <==> IsAbsolute(path) && Clean(Split(path[1..]))
  {
    hide Resolve;
    hide Clean;
    hide DirsOf;
    NormalizeClean(cwd, path);
    if IsAbsolute(path) && Clean(Split(path[1..])) {
      CleanStays(path[1..]);
    }
  }

  lemma CleanStays(rest: string)
    requires Clean(Split(rest))
    ensures Resolve([], rest) == [PATHSEP] + rest
  {
    hide Split;
    hide EnterAll;
    hide Text;
    var cs := Split(rest);
    EnterClean([], cs[..|cs| - 1]);
    assert cs[|cs| - 1] in cs;
    JoinSplit(rest);
    assert [] + cs[..|cs| - 1] == cs[..|cs| - 1];
  }

  /** Normalising twice is normalising once; a relative name needs a current directory without dot parts. */
  lemma NormalizeIdempotent(cwd: string, path: string)
    requires IsAbsolute(cwd) && (IsAbsolute(path) || Clean(DirsOf(WithSlash(cwd))))
    ensures Normalize(cwd, Normalize(cwd, path)) == Normalize(cwd, path)
  {
    NormalizeClean(cwd, path);
    NormalizeFixed(cwd, Normalize(cwd, path));
  }

  // ------------------------------------------------------------------ the program

  lemma ResolveStep(dirs: seq<string>, c: string, rest: string)
    requires PATHSEP !in c
    ensures Resolve(dirs, c + [PATHSEP] + rest) == Resolve(Enter(dirs, c), rest)
  {
    hide Split;
    hide Finish;
    hide Enter;
    SplitFirst(c, rest);
    var cr := Split(rest);
    var cs := [c] + cr;
    assert cs[..|cs| - 1] == [c] + cr[..|cr| - 1];
    assert ([c] + cr[..|cr| - 1])[1..] == cr[..|cr| - 1];
  }

  lemma ResolveLast(dirs: seq<string>, c: string)
    requires PATHSEP !in c
    ensures Resolve(dirs, c) == Finish(dirs, c)
  {
    hide Split;
    hide Finish;
    SplitWhole(c);
  }

  // ------------------------------------------------------------------ room in the buffer

  predicate Dots(c: string) { c == "." || c == ".." }

  /** The output never fills the buffer while the parts `cs` are taken from the directory `dirs`: what ".." removes
      makes room again. */
  predicate Fits(dirs: seq<string>, cs: seq<string>)
    decreases |cs|
  {
    && |Text(dirs)| < FILENAME_MAX
    && if |cs| > 1 then Fits(Enter(dirs, cs[0]), cs[1..])
       else cs == [] || Dots(cs[0]) || |Text(dirs)| + |cs[0]| < FILENAME_MAX
  }

  /** A whole name, seen from the directory `cwd`. */
  predicate NameFits(cwd: string, path: string)
    requires IsAbsolute(cwd)
  {
    if IsAbsolute(path) then Fits([], Split(path[1..])) else Fits(DirsOf(WithSlash(cwd)), Split(path))
  }

  lemma FitsNow(dirs: seq<string>, cs: seq<string>)
    requires Fits(dirs, cs)
    ensures |Text(dirs)| < FILENAME_MAX
  {
  }

  /** The next part fits, and so do those behind it. */
  lemma FitsPart(dirs: seq<string>, path: string, start: nat)
    requires start <= |path| && Fits(dirs, Split(path[start..]))
    ensures var c := PartAt(path, start);
            if start + |c| < |path| then Fits(Enter(dirs, c), Split(path[start + |c| + 1..]))
            else Dots(c) || |Text(dirs)| + |c| < FILENAME_MAX
  {
    hide Text;
    hide Enter;
    hide PartAt;
    hide Split;
    var c := PartAt(path, start);
    if start + |c| < |path| {
      var rest := path[start + |c| + 1..];
      assert path[start..] == c + [PATHSEP] + rest;
      SplitFirst(c, rest);
      assert ([c] + Split(rest))[1..] == Split(rest);
    } else {
      assert path[start..] == c;
      SplitWhole(c);
    }
  }

  lemma {:induction false} ShortFits(dirs: seq<string>, cs: seq<string>)
    requires cs != [] && |Text(dirs)| + |Text(cs)| <= FILENAME_MAX + 1
    ensures Fits(dirs, cs)
    decreases |cs|
  {
    hide Text;
    assert cs == [cs[0]] + cs[1..];
    TextCons(cs[0], cs[1..]);
    TextLonger(cs[1..]);
    EnterLonger(dirs, cs[0]);
    if |cs| > 1 {
      ShortFits(Enter(dirs, cs[0]), cs[1..]);
    }
  }

  /** Names that are short enough as they are. */
  lemma ShortNameFits(cwd: string, path: string)
    requires IsAbsolute(cwd) && (if IsAbsolute(path) then 0 else |WithSlash(cwd)|) + |path| < FILENAME_MAX
    ensures NameFits(cwd, path)
  {
    hide Text;
    hide Split;
    hide DirsOf;
    hide Fits;
    if IsAbsolute(path) {
      TextRoot();
      TextOfSplit(path[1..]);
      ShortFits([], Split(path[1..]));
    } else {
      BaseText(cwd);
      TextOfSplit(path);
      ShortFits(DirsOf(WithSlash(cwd)), Split(path));
    }
  }

  lemma TextOfSplit(s: string)
    ensures Split(s) != [] && |Text(Split(s))| == |s| + 2
  {
    hide Split;
    JoinSplit(s);
    TextSnoc(Split(s));
  }

  lemma TextLonger(cs: seq<string>)
    ensures |Text(cs)| >= 1
  {
  }

  lemma EnterLonger(dirs: seq<string>, c: string)
    ensures |Text(Enter(dirs, c))| <= |Text(dirs)| + |c| + 1
  {
    if c != "." && c != ".." {
      TextSnoc(dirs + [c]);
      assert (dirs + [c])[..|dirs|] == dirs;
    } else if dirs != [] {
      TextSnoc(dirs);
    }
  }

  /** Room for what is still to come. */
  ghost predicate Space(path: string, inpos: nat, outpos: nat, dirs: seq<string>, complete: bool) {
    && inpos <= |path| && outpos < FILENAME_MAX
    && (complete ||
        if outpos == 0 then IsAbsolute(path) && Fits([], Split(path[1..])) else Fits(dirs, Split(path[inpos..])))
  }

  /** Copies one part of `name` to the end of `temp`, with its slash if it has one. */
  method CopyPart(name: array<char>, temp: array<char>, start: nat, startOut: nat, ghost path: string)
    returns (inpos: nat, outpos: nat)
    requires name != temp && path == CStr(name[..]) && NUL in name[..] && start < |path|
    requires temp.Length == FILENAME_MAX
    requires var n := |PartAt(path, start)|; startOut + n + (if start + n < |path| then 1 else 0) < FILENAME_MAX
    modifies temp
    ensures var n := |PartAt(path, start)|; inpos == start + n + (if start + n < |path| then 1 else 0)
    ensures inpos <= |path| && outpos == startOut + (inpos - start)
    ensures temp[..outpos] == old(temp[..startOut]) + path[start..inpos]
  {
    hide CStr;
    hide FirstSlash;
    inpos, outpos := start, startOut;
    Terminator(name[..]);
    ghost var i := start + FirstSlash(path[start..]);
    SlashAt(path, start);
    while name[inpos] != NUL && outpos < FILENAME_MAX
      invariant start <= inpos <= i && outpos == startOut + (inpos - start)
      invariant temp[..outpos] == old(temp[..startOut]) + path[start..inpos]
      decreases |path| - inpos
    {
      temp[outpos] := name[inpos];
      outpos := outpos + 1;
      inpos := inpos + 1;
      assert temp[..outpos] == temp[..outpos - 1] + [path[inpos - 1]];
      assert path[start..inpos] == path[start..inpos - 1] + [path[inpos - 1]];
      if name[inpos - 1] == PATHSEP {
        break;
      }
    }
  }

  lemma Terminator(a: seq<char>)
    requires NUL in a
    ensures |CStr(a)| < |a| && a[|CStr(a)|] == NUL && forall i | 0 <= i < |CStr(a)| :: a[i] == CStr(a)[i] != NUL
  {
    var s := CStr(a);
    assert forall i | 0 <= i < |s| :: a[i] in s;
  }

  lemma SlashAt(s: string, start: nat)
    requires start <= |s|
    ensures var i := start + FirstSlash(s[start..]);
            (forall k | start <= k < i :: s[k] != PATHSEP) && (i < |s| ==> s[i] == PATHSEP)
  {
    var t := s[start..];
    var j := FirstSlash(t);
    assert forall k | 0 <= k < j :: t[k] in t[..j];
    forall k | start <= k < start + j ensures s[k] != PATHSEP {
      assert s[k] == t[k - start];
    }
  }

  /** Drops the last directory from `temp`; the root stays. */
  method PopPart(temp: array<char>, startOut: nat, ghost dirs: seq<string>) returns (outpos: nat)
    requires Parts(dirs) && 0 < startOut < temp.Length && temp[..startOut] == Text(dirs) && NUL !in Text(dirs)
    modifies temp
    ensures 0 < outpos <= startOut && temp[..outpos] == Text(Pop(dirs)) && NUL !in Text(Pop(dirs))
  {
    hide Text;
    ghost var t := Text(dirs);
    temp[startOut - 1] := NUL;
    PopText(dirs);
    assert temp[..startOut - 1] == t[..startOut - 1];
    assert NUL !in t[..startOut - 1];
    CStrIs(temp[..], startOut - 1);
    var p := LastIndex(CStr(temp[..]), PATHSEP);
    if p >= 0 {
      assert temp[..p + 1] == t[..p + 1];
      temp[p + 1] := NUL;
      assert temp[..p + 1] == t[..p + 1];
      assert NUL !in t[..p + 1];
      CStrIs(temp[..], p + 1);
      outpos := |CStr(temp[..])|;
    } else {
      temp[0] := PATHSEP;
      outpos := 1;
    }
  }

  /** Where the slash before the last directory is. */
  lemma PopText(dirs: seq<string>)
    requires Parts(dirs)
    ensures var t := Text(dirs); var p := LastIndex(t[..|t| - 1], PATHSEP);
            if dirs == [] then t == [PATHSEP] && p == -1 && Pop(dirs) == []
            else p >= 0 && t[..p + 1] == Text(Pop(dirs))
    ensures Text([]) == [PATHSEP]
  {
    hide Text;
    hide LastIndex;
    hide Parts;
    TextRoot();
    if dirs == [] {
      assert Text(dirs)[..0] == "";
    } else {
      assert dirs[..|dirs| - 1] + [dirs[|dirs| - 1]] == dirs;
      PopNonEmpty(dirs[..|dirs| - 1], dirs[|dirs| - 1]);
    }
  }

  lemma PopNonEmpty(dirs: seq<string>, c: string)
    requires Parts(dirs + [c])
    ensures var t := Text(dirs + [c]); var p := LastIndex(t[..|t| - 1], PATHSEP);
            p >= 0 && t[..p + 1] == Text(dirs)
  {
    hide Text;
    hide LastIndex;
    assert (dirs + [c])[..|dirs|] == dirs && c in dirs + [c];
    TextSnoc(dirs + [c]);
    var t, u := Text(dirs + [c]), Text(dirs);
    assert t[..|t| - 1] == u + c;
    LastSlashIn(u, c);
    assert t[..|u|] == u;
  }

  lemma LastSlashIn(u: string, c: string)
    requires u != "" && u[|u| - 1] == PATHSEP && PATHSEP !in c
    ensures LastIndex(u + c, PATHSEP) == |u| - 1
  {
    hide LastIndex;
    assert forall k | 0 <= k < |c| :: c[k] in c;
    assert forall k | |u| <= k < |u + c| :: (u + c)[k] == c[k - |u|];
    assert (u + c)[|u| - 1] == PATHSEP;
  }

  /** Removes the closing slash of a directory in `temp`, by a NUL that leaves the end position as it is. */
  method CutSlash(temp: array<char>, outpos: nat, ghost dirs: seq<string>)
    requires 0 < outpos <= temp.Length && temp[..outpos] == Text(dirs) && NUL !in Text(dirs)
    modifies temp
    ensures Holds(temp[..], outpos, Bare(dirs))
  {
    hide Text;
    PopTextLength(dirs);
    if outpos > 1 {
      temp[outpos - 1] := NUL;
    }
    assert outpos > 1 ==> temp[..outpos - 1] == Bare(dirs);
    assert outpos <= 1 ==> temp[..outpos] == Bare(dirs);
  }

  lemma PopTextLength(dirs: seq<string>)
    ensures |Text(dirs)| > 1 <==> dirs != []
  {
  }

  /** The buffer holds `s`, up to `outpos` or to an earlier NUL. */
  ghost predicate Holds(a: seq<char>, outpos: nat, s: string) {
    |s| <= outpos <= |a| && a[..|s|] == s && NUL !in s && (|s| < outpos ==> a[|s|] == NUL)
  }

  /** The loop has consumed `inpos` characters. Unless the name is complete or the root slash is still
      to come, the buffer is a directory from which the rest of the path leads to the goal. */
  ghost predicate Progress(path: string, inpos: nat, temp: seq<char>, outpos: nat, dirs: seq<string>, complete: bool,
                           goal: string) {
    && inpos <= |path| && outpos <= |temp|
    && if complete then inpos == |path| && Holds(temp, outpos, goal)
       else if outpos == 0 then inpos == 0 && IsAbsolute(path) && dirs == [] && goal == Resolve([], path[1..])
       else Parts(dirs) && temp[..outpos] == Text(dirs) && NUL !in Text(dirs) && Resolve(dirs, path[inpos..]) == goal
  }

  /** When the input ends after a slash, the directory itself is the goal. */
  lemma ProgressEnds(path: string, temp: seq<char>, outpos: nat, dirs: seq<string>, complete: bool, goal: string)
    requires Progress(path, |path|, temp, outpos, dirs, complete, goal)
    ensures Holds(temp, outpos, goal)
  {
    if !complete {
      assert path[|path|..] == "";
      ResolveLast(dirs, "");
    }
  }

  /** The part that starts at `start`. */
  function PartAt(path: string, start: nat): (c: string)
    requires start <= |path|
    ensures PATHSEP !in c && start + |c| <= |path| && c == path[start..start + |c|]
    ensures start + |c| < |path| ==> path[start + |c|] == PATHSEP
  {
    path[start..][..FirstSlash(path[start..])]
  }

  /** The character tests of the program recognise exactly the parts "." and "..". */
  lemma DotParts(a: seq<char>, path: string, start: nat)
    requires NUL in a && path == CStr(a) && start < |path|
    ensures |path| < |a|
    ensures PartAt(path, start) == "." <==> a[start] == '.' && (a[start + 1] == PATHSEP || a[start + 1] == NUL)
    ensures PartAt(path, start) == ".." <==>
      a[start] == '.' && a[start + 1] == '.' && (a[start + 2] == PATHSEP || a[start + 2] == NUL)
  {
    hide CStr;
    hide PartAt;
    Terminator(a);
    var c := PartAt(path, start);
    forall k | 0 <= k < |c| ensures c[k] == a[start + k] && !Ends(c[k]) {
      assert c[k] in c && path[start + k] in path;
    }
    assert Ends(a[start + |c|]);
    DotsAt(a, start, c);
  }

  predicate Ends(x: char) { x == PATHSEP || x == NUL }

  lemma DotsAt(a: seq<char>, start: nat, c: string)
    requires start + |c| < |a| && Ends(a[start + |c|])
    requires forall k | 0 <= k < |c| :: c[k] == a[start + k] && !Ends(c[k])
    ensures c == "." <==> a[start] == '.' && start + 1 < |a| && Ends(a[start + 1])
    ensures c == ".." <==> a[start] == '.' && start + 2 < |a| && a[start + 1] == '.' && Ends(a[start + 2])
  {
    if |c| == 1 {
      assert c[0] == a[start];
    } else if |c| > 1 {
      assert c[0] == a[start] && c[1] == a[start + 1];
      if |c| > 2 {
        assert c[2] == a[start + 2];
      }
    }
  }

  /** A slashed part leads to another directory, the last part to the goal. */
  lemma PartResolves(dirs: seq<string>, path: string, start: nat)
    requires start <= |path|
    ensures var c := PartAt(path, start);
            Resolve(dirs, path[start..]) ==
              if start + |c| < |path| then Resolve(Enter(dirs, c), path[start + |c| + 1..]) else Finish(dirs, c)
  {
    hide Resolve;
    hide Finish;
    hide Enter;
    hide PartAt;
    var c := PartAt(path, start);
    if start + |c| < |path| {
      assert path[start..] == c + [PATHSEP] + path[start + |c| + 1..];
      ResolveStep(dirs, c, path[start + |c| + 1..]);
    } else {
      assert path[start..] == c;
      ResolveLast(dirs, c);
    }
  }

  lemma CopiedDirs(dirs: seq<string>, c: string)
    requires Parts(dirs) && PATHSEP !in c && NUL !in Text(dirs) && NUL !in c
    ensures Parts(dirs + [c]) && Text(dirs + [c]) == Text(dirs) + c + [PATHSEP] && NUL !in Text(dirs + [c])
  {
    hide Text;
    TextSnoc(dirs + [c]);
    assert (dirs + [c])[..|dirs|] == dirs;
  }

  /** There is room for a part that is copied, and for what follows it. */
  lemma CopiedSpace(path: string, start: nat, startOut: nat, dirs: seq<string>)
    requires Space(path, start, startOut, dirs, false) && start < |path| && !Dots(PartAt(path, start))
    requires if startOut == 0 then start == 0 && dirs == [] else startOut == |Text(dirs)|
    ensures var c := PartAt(path, start); var slash := start + |c| < |path|;
            var n := |c| + if slash then 1 else 0;
            && start + |c| <= |path| && startOut + n < FILENAME_MAX
            && Space(path, start + n, startOut + n, if startOut > 0 && slash then dirs + [c] else dirs,
                     startOut > 0 && !slash)
  {
    hide Text;
    hide PartAt;
    hide Split;
    hide Fits;
    var c := PartAt(path, start);
    if startOut == 0 {
      RootPart(path);
      TextRoot();
      FitsNow([], Split(path[1..]));
    } else {
      PartInside(path, start);
      FitsPart(dirs, path, start);
      if start + |c| < |path| {
        TextSnoc(dirs + [c]);
        assert (dirs + [c])[..|dirs|] == dirs;
        FitsNow(dirs + [c], Split(path[start + |c| + 1..]));
      }
    }
  }

  /** A part that is neither "." nor "..". The root slash of an absolute name is copied like this, too. */
  method CopyNext(name: array<char>, temp: array<char>, start: nat, startOut: nat,
                  ghost path: string, ghost dirs0: seq<string>, ghost goal: string)
    returns (inpos: nat, outpos: nat, ghost dirs: seq<string>, ghost complete: bool)
    requires name != temp && path == CStr(name[..]) && NUL in name[..] && start < |path|
    requires temp.Length == FILENAME_MAX && Space(path, start, startOut, dirs0, false)
    requires Progress(path, start, temp[..], startOut, dirs0, false, goal)
    requires PartAt(path, start) != "." && PartAt(path, start) != ".."
    modifies temp
    ensures start < inpos <= |path| && Space(path, inpos, outpos, dirs, complete)
    ensures Progress(path, inpos, temp[..], outpos, dirs, complete, goal)
  {
    hide CStr;
    hide Text;
    hide Resolve;
    hide PartAt;
    hide Split;
    hide Fits;
    dirs, complete := dirs0, false;
    hide Space;
    ghost var c := PartAt(path, start);
    if startOut == 0 {
      RootPart(path);
    } else {
      PartInside(path, start);
      CopiedDirs(dirs0, c);
    }
    CopiedSpace(path, start, startOut, dirs0);
    inpos, outpos := CopyPart(name, temp, start, startOut, path);
    if startOut > 0 {
      PartResolves(dirs0, path, start);
      if start + |c| < |path| {
        assert path[start..inpos] == c + [PATHSEP];
        dirs := dirs0 + [c];
      } else {
        complete := true;
      }
    }
  }

  /** Handles one part of the name: "." and ".." are interpreted, other parts are copied. */
  method NextPart(name: array<char>, temp: array<char>, start: nat, startOut: nat,
                  ghost path: string, ghost dirs0: seq<string>, ghost goal: string)
    returns (inpos: nat, outpos: nat, ghost dirs: seq<string>, ghost complete: bool)
    requires name != temp && path == CStr(name[..]) && NUL in name[..] && start < |path|
    requires temp.Length == FILENAME_MAX && Space(path, start, startOut, dirs0, false)
    requires Progress(path, start, temp[..], startOut, dirs0, false, goal)
    modifies temp
    ensures start < inpos <= |path| && Space(path, inpos, outpos, dirs, complete)
    ensures Progress(path, inpos, temp[..], outpos, dirs, complete, goal)
  {
    hide CStr;
    hide Text;
    hide Resolve;
    hide PartAt;
    hide Bare;
    hide Split;
    hide Fits;
    Terminator(name[..]);
    DotParts(name[..], path, start);
    if startOut > 0 {
      FitsPart(dirs0, path, start);
    }
    inpos, outpos, dirs, complete := start, startOut, dirs0, false;
    if name[start] == '.' && name[start + 1] == PATHSEP {
      PartResolves(dirs0, path, start);
      inpos := start + 2;
    } else if name[start] == '.' && name[start + 1] == NUL {
      PartResolves(dirs0, path, start);
      inpos := start + 1;
      CutSlash(temp, outpos, dirs0);
      complete := true;
    } else if name[start] == '.' && name[start + 1] == '.' && (name[start + 2] == PATHSEP || name[start + 2] == NUL) {
      PartResolves(dirs0, path, start);
      outpos := PopPart(temp, startOut, dirs0);
      dirs := Pop(dirs0);
      inpos := start + 2;
      if name[inpos] == PATHSEP {
        inpos := inpos + 1;
      } else {
        CutSlash(temp, outpos, dirs);
        complete := true;
      }
    } else {
      inpos, outpos, dirs, complete := CopyNext(name, temp, start, startOut, path, dirs0, goal);
    }
  }

  lemma PartInside(path: string, start: nat)
    requires start <= |path|
    ensures var c := PartAt(path, start); PATHSEP !in c && start + |c| <= |path| && c == path[start..start + |c|]
  {
  }

  lemma RootPart(path: string)
    requires IsAbsolute(path)
    ensures PartAt(path, 0) == "" && path[0..1] == Text([]) && NUL !in Text([])
  {
    assert path[0..] == path;
  }

  /** The current directory as the first directories. */
  lemma BaseText(cwd: string)
    requires IsAbsolute(cwd)
    ensures Text(DirsOf(WithSlash(cwd))) == WithSlash(cwd) && Parts(DirsOf(WithSlash(cwd)))
  {
    hide Text;
    hide Split;
    var base := WithSlash(cwd);
    JoinSplit(base[1..]);
    EndsWithEmptyPart(base[1..], base);
    var cs := Split(base[1..]);
    assert Text(cs[..|cs| - 1]) + "" == Text(cs[..|cs| - 1]);
  }

  lemma {:induction false} EndsWithEmptyPart(s: string, whole: string)
    requires whole == [PATHSEP] + s && whole[|whole| - 1] == PATHSEP
    ensures var cs := Split(s); cs[|cs| - 1] == ""
    decreases |s|
  {
    hide FirstSlash;
    if s != "" {
      var i := FirstSlash(s);
      assert s[|s| - 1] == PATHSEP;
      assert forall k | 0 <= k < i :: s[k] in s[..i];
      EndsWithEmptyPart(s[i + 1..], s[i..]);
    }
  }

  /** Replaces the name in the buffer by its absolute form. `cwd` is what the system reports as the
      current directory. */
  method MakeAbsoluteName(name: array<char>, cwd: string)
    requires name.Length >= FILENAME_MAX && NUL in name[..]
    requires IsAbsolute(cwd) && NUL !in cwd
    requires NameFits(cwd, CStr(name[..]))
    modifies name
    ensures NUL in name[..] && CStr(name[..]) == Normalize(cwd, old(CStr(name[..])))
  {
    hide CStr;
    hide Text;
    hide Resolve;
    hide DirsOf;
    hide Split;
    hide Fits;
    ghost var path := CStr(name[..]);
    ghost var goal := Normalize(cwd, path);
    Terminator(name[..]);
    var temp := new char[FILENAME_MAX](_ => NUL);
    var inpos: nat, outpos: nat := 0, 0;
    ghost var dirs: seq<string> := [];
    ghost var complete := false;
    if name[0] != PATHSEP {
      var base := WithSlash(cwd);
      BaseText(cwd);
      FitsNow(DirsOf(base), Split(path));
      forall i | 0 <= i < |base| {
        temp[i] := base[i];
      }
      outpos := |base|;
      dirs := DirsOf(base);
      assert path[0..] == path;
      assert temp[..outpos] == base;
    }
    while name[inpos] != NUL && outpos < FILENAME_MAX
      invariant temp.Length == FILENAME_MAX && fresh(temp) && name[..] == old(name[..])
      invariant Progress(path, inpos, temp[..], outpos, dirs, complete, goal)
      invariant Space(path, inpos, outpos, dirs, complete)
      decreases |path| - inpos
    {
      inpos, outpos, dirs, complete := NextPart(name, temp, inpos, outpos, path, dirs, goal);
    }
    ProgressEnds(path, temp[..], outpos, dirs, complete, goal);
    HeldString(temp[..], outpos, goal);
    temp[outpos] := NUL;
    CopyString(name, temp, goal);
  }

  lemma HeldString(a: seq<char>, outpos: nat, s: string)
    requires outpos < |a| && Holds(a, outpos, s)
    ensures CStr(a[outpos := NUL]) == s
  {
    CStrIs(a[outpos := NUL], |s|);
  }

  /** Copies a terminated string. */
  method CopyString(to: array<char>, from: array<char>, ghost s: string)
    requires to != from && |s| < from.Length <= to.Length && NUL in from[..] && CStr(from[..]) == s
    modifies to
    ensures NUL in to[..] && CStr(to[..]) == s
  {
    hide CStr;
    Terminator(from[..]);
    var n := |CStr(from[..])|;
    forall i | 0 <= i <= n {
      to[i] := from[i];
    }
    assert to[..n] == s;
    assert to[n] == NUL && to[n] in to[..];
    CStrIs(to[..], n);
  }
}
