/** The command line tokenizer of src/change.c: two passes over one buffer, the second of which cuts
    the buffer into arguments in place and removes the backslashes before quoted whitespace. */
module CommandLine {
  import opened FileName

  predicate IsSpace(c: char) {
    c == ' ' || '\t' <= c <= '\r'
  }

  predicate Escaping(arg: string) {
    arg != "" && arg[|arg| - 1] == '\\'
  }

  function Flush(arg: string): seq<string> {
    if arg == "" then [] else [arg]
  }

  /** The arguments in `s` when `arg` has been collected of the current one: whitespace separates
      arguments, unless a backslash precedes it, which it then replaces. */
  function Tokenize(s: string, arg: string): seq<string>
    decreases |s|
  {
    if s == "" then Flush(arg)
    else if !IsSpace(s[0]) then Tokenize(s[1..], arg + [s[0]])
    else if Escaping(arg) then Tokenize(s[1..], arg[..|arg| - 1] + [s[0]])
    else Flush(arg) + Tokenize(s[1..], "")
  }

  function Tokens(s: string): seq<string> { Tokenize(s, "") }

  // ------------------------------------------------------------------ quoting

  function Quote(arg: string): string {
    if arg == "" then "" else (if IsSpace(arg[0]) then ['\\', arg[0]] else [arg[0]]) + Quote(arg[1..])
  }

  /** Quoted arguments, each with a space before it. */
  function Tail(args: seq<string>): string {
    if args == [] then "" else " " + Quote(args[0]) + Tail(args[1..])
  }

  function Join(args: seq<string>): string {
    if args == [] then "" else Quote(args[0]) + Tail(args[1..])
  }

  /** Arguments that quoting can carry: none is empty, and none but the last ends with a backslash. */
  predicate Quotable(args: seq<string>) {
    && (forall k | 0 <= k < |args| :: args[k] != "")
    && (forall k | 0 <= k < |args| - 1 :: !Escaping(args[k]))
  }

  lemma QuotedChar(c: char, s: string, arg: string)
    ensures Tokenize((if IsSpace(c) then ['\\', c] else [c]) + s, arg) == Tokenize(s, arg + [c])
  {
    hide Flush;
    assert ([c] + s)[1..] == s;
    if IsSpace(c) {
      assert ['\\', c] + s == ['\\'] + ([c] + s);
      assert (['\\'] + ([c] + s))[1..] == [c] + s;
      assert (arg + ['\\'])[..|arg|] == arg;
    }
  }

  /** Quoted text is collected as what it stands for, whatever has been collected before. */
  lemma {:induction false} QuotedIsCollected(a: string, rest: string, arg: string)
    ensures Tokenize(Quote(a) + rest, arg) == Tokenize(rest, arg + a)
    decreases |a|
  {
    hide Tokenize;
    if a == "" {
      assert Quote(a) + rest == rest && arg + a == arg;
    } else {
      var c := a[0];
      var s := Quote(a[1..]) + rest;
      var q := if IsSpace(c) then ['\\', c] else [c];
      assert Quote(a) + rest == q + s;
      QuotedChar(c, s, arg);
      QuotedIsCollected(a[1..], rest, arg + [c]);
      assert arg + [c] + a[1..] == arg + a;
    }
  }

  /** The separating space before the next argument. */
  lemma NextArgument(args: seq<string>, arg: string)
    requires args != []
    ensures Tokenize(Tail(args), arg)
         == if Escaping(arg) then Tokenize(Tail(args[1..]), arg[..|arg| - 1] + " " + args[0])
            else Flush(arg) + Tokenize(Tail(args[1..]), args[0])
  {
    var rest := Quote(args[0]) + Tail(args[1..]);
    assert Tail(args) == [' '] + rest;
    assert ([' '] + rest)[1..] == rest;
    QuotedIsCollected(args[0], Tail(args[1..]), if Escaping(arg) then arg[..|arg| - 1] + " " else "");
    assert "" + args[0] == args[0];
  }

  lemma {:induction false} TailRoundTrip(args: seq<string>, arg: string)
    requires Quotable([arg] + args)
    ensures Tokenize(Tail(args), arg) == [arg] + args
    decreases |args|
  {
    hide Tail;
    assert ([arg] + args)[0] == arg;
    if args == [] {
      TailEmpty();
    } else {
      assert forall k | 0 <= k < |args| :: ([arg] + args)[k + 1] == args[k];
      assert [args[0]] + args[1..] == args;
      NextArgument(args, arg);
      TailRoundTrip(args[1..], args[0]);
    }
  }

  lemma TailEmpty()
    ensures Tail([]) == ""
  {
  }

  /** Parsing yields at most one argument for each one that was joined, and as many only if all were quotable. */
  lemma {:induction false} TailCount(args: seq<string>, arg: string)
    ensures var n := |Tokenize(Tail(args), arg)|;
            n <= |args| + 1 && (n == |args| + 1 ==> Quotable([arg] + args))
    decreases |args|
  {
    hide Tail;
    if args == [] {
      TailEmpty();
    } else {
      NextArgument(args, arg);
      if Escaping(arg) {
        TailCount(args[1..], arg[..|arg| - 1] + " " + args[0]);
      } else {
        TailCount(args[1..], args[0]);
        assert [args[0]] + args[1..] == args;
        assert forall k | 0 < k < |args| + 1 :: ([arg] + args)[k] == args[k - 1];
      }
    }
  }

  /** Quoting, joining and parsing gives the arguments back exactly when they are quotable. */
  lemma QuoteRoundTrip(args: seq<string>)
    ensures Tokens(Join(args)) == args <==> Quotable(args)
  {
    if args == [] {
      assert Tokens("") == [];
    } else {
      QuotedIsCollected(args[0], Tail(args[1..]), "");
      assert "" + args[0] == args[0];
      assert [args[0]] + args[1..] == args;
      TailCount(args[1..], args[0]);
      if Quotable(args) {
        TailRoundTrip(args[1..], args[0]);
      }
    }
  }

  // ------------------------------------------------------------------ the program

  /** An entry of the argument vector: the name of the program, a position in the buffer, or the end mark. */
  datatype Arg = Program | At(pos: nat) | Null

  lemma TokenizeStep(s: string, arg: string)
    requires s != ""
    ensures Tokenize(s, arg) ==
      if !IsSpace(s[0]) then Tokenize(s[1..], arg + [s[0]])
      else if Escaping(arg) then Tokenize(s[1..], arg[..|arg| - 1] + [s[0]])
      else Flush(arg) + Tokenize(s[1..], "")
  {
  }

  /** First pass: how many arguments there are. */
  method CountArgs(line: array<char>) returns (argc: nat)
    requires NUL in line[..] && (line[0] != NUL ==> !IsSpace(line[0]))
    ensures argc == |Tokens(CStr(line[..]))|
  {
    hide CStr;
    hide Tokenize;
    ghost var s := CStr(line[..]);
    Terminator(line[..]);
    var i := 0;
    var inarg := false;
    ghost var arg := "";
    argc := 0;
    assert s[0..] == s;
    while line[i] != NUL
      invariant 0 <= i <= |s| && (inarg <==> arg != "") && (inarg ==> argc > 0)
      invariant i == 0 ==> !inarg
      invariant i > 0 ==> if inarg then arg[|arg| - 1] == s[i - 1] else IsSpace(s[i - 1])
      invariant |Tokens(s)| + (if inarg then 1 else 0) == argc + |Tokenize(s[i..], arg)|
      decreases |s| - i
    {
      TokenizeStep(s[i..], arg);
      assert s[i..][1..] == s[i + 1..];
      if IsSpace(line[i]) && line[i - 1] != '\\' {
        arg := "";
        inarg := false;
      } else {
        arg := if IsSpace(line[i]) then arg[..|arg| - 1] + [line[i]] else arg + [line[i]];
        if !inarg {
          inarg := true;
          argc := argc + 1;
        }
      }
      i := i + 1;
    }
    assert s[i..] == "";
    TokenizeEnd(arg);
  }

  lemma TokenizeEnd(arg: string)
    ensures Tokenize("", arg) == Flush(arg)
  {
  }

  /** A finished argument lies before `end` in the buffer, with a NUL behind it. */
  ghost predicate Placed(buf: seq<char>, a: Arg, arg: string, end: nat) {
    && a.At? && a.pos + |arg| < end <= |buf| && NUL !in arg
    && buf[a.pos..a.pos + |arg|] == arg && buf[a.pos + |arg|] == NUL
  }

  /** The second pass stands at `i`: arguments `done` are in place, `arg` has been collected since `start`. */
  ghost predicate Scanning(buf: seq<char>, argv: seq<Arg>, argc: nat, i: nat, start: nat, done: seq<string>,
                           arg: string) {
    && start <= i < |buf| && start + |arg| == i && NUL in buf[i..] && NUL !in arg && buf[start..i] == arg
    && (arg == "" && i > 0 ==> buf[i - 1] == NUL)
    && argc == 1 + |done| + (if arg == "" then 0 else 1) && argc < |argv| && argv[0] == Program
    && (forall k | 0 <= k < |done| :: Placed(buf, argv[1 + k], done[k], start))
    && (arg != "" ==> argv[argc - 1] == At(start))
  }

  /** The rest of the buffer from `i` after its first character. */
  lemma RestOf(buf: seq<char>, i: nat)
    requires i < |buf| && NUL in buf[i..] && buf[i] != NUL
    ensures i + 1 < |buf| && NUL in buf[i + 1..]
    ensures CStr(buf[i..]) == [buf[i]] + CStr(buf[i + 1..]) && CStr(buf[i..])[1..] == CStr(buf[i + 1..])
  {
    assert buf[i..][1..] == buf[i + 1..];
    var k :| 0 <= k < |buf[i..]| && buf[i..][k] == NUL;
    assert buf[i + 1..][k - 1] == NUL;
  }

  /** Moves the rest of the line one place down, over the backslash before `i`. */
  method RemoveQuote(line: array<char>, i: nat)
    requires 0 < i < line.Length && NUL in line[i..] && line[i] != NUL
    modifies line
    ensures line[..i - 1] == old(line[..i - 1]) && line[i - 1] == old(line[i])
    ensures NUL in line[i..] && CStr(line[i..]) == old(CStr(line[i + 1..]))
  {
    hide CStr;
    Terminator(line[i..]);
    RestOf(line[..], i);
    assert line[..][i..] == line[i..] && line[..][i + 1..] == line[i + 1..];
    var n := |CStr(line[i..])|;
    ghost var rest := CStr(line[i + 1..]);
    ghost var before := line[..];
    Terminator(before[i + 1..]);
    assert |rest| == n - 1;
    forall k | i <= k <= i + n {
      line[k - 1] := line[k];
    }
    forall k | 0 <= k < n ensures line[i..][k] == before[i + 1..][k] {
      assert line[i + k] == before[i + k + 1];
    }
    assert line[i..][..n - 1] == rest;
    assert line[i..][n - 1] == NUL;
    CStrIs(line[i..], n - 1);
  }

  lemma ScanSeparator(buf: seq<char>, argv: seq<Arg>, argc: nat, i: nat, start: nat, done: seq<string>, arg: string)
    requires Scanning(buf, argv, argc, i, start, done, arg) && i + 1 < |buf| && NUL in buf[i + 1..]
    ensures Scanning(buf[i := NUL], argv, argc, i + 1, i + 1, done + Flush(arg), "")
  {
    var buf' := buf[i := NUL];
    assert buf'[i + 1..] == buf[i + 1..];
    forall k | 0 <= k < |done| ensures Placed(buf', argv[1 + k], done[k], i + 1) {
      assert Placed(buf, argv[1 + k], done[k], start);
      var p := argv[1 + k].pos;
      assert buf'[p..p + |done[k]|] == buf[p..p + |done[k]|];
    }
    if arg != "" {
      assert buf'[start..i] == arg;
      assert Placed(buf', argv[1 + |done|], arg, i + 1);
    }
  }

  lemma ScanStart(buf: seq<char>, argv: seq<Arg>, argc: nat, i: nat, start: nat, done: seq<string>)
    requires Scanning(buf, argv, argc, i, start, done, "") && buf[i] != NUL && argc + 1 < |argv|
    ensures Scanning(buf, argv[argc := At(i)], argc + 1, i + 1, i, done, [buf[i]])
  {
    RestOf(buf, i);
    assert buf[i..i + 1] == [buf[i]];
  }

  lemma ScanMore(buf: seq<char>, argv: seq<Arg>, argc: nat, i: nat, start: nat, done: seq<string>, arg: string)
    requires Scanning(buf, argv, argc, i, start, done, arg) && arg != "" && buf[i] != NUL
    ensures Scanning(buf, argv, argc, i + 1, start, done, arg + [buf[i]])
  {
    RestOf(buf, i);
    assert buf[start..i + 1] == arg + [buf[i]];
  }

  lemma ScanQuoted(buf: seq<char>, buf': seq<char>, argv: seq<Arg>, argc: nat, i: nat, start: nat, done: seq<string>,
                   arg: string)
    requires Scanning(buf, argv, argc, i, start, done, arg) && arg != "" && |buf'| == |buf|
    requires buf'[..i - 1] == buf[..i - 1] && buf'[i - 1] == buf[i] != NUL && NUL in buf'[i..]
    ensures Scanning(buf', argv, argc, i, start, done, arg[..|arg| - 1] + [buf[i]])
  {
    assert buf'[start..i - 1] == buf[start..i - 1] == arg[..|arg| - 1] by {
      assert forall k | start <= k < i - 1 :: buf'[k] == buf'[..i - 1][k] == buf[..i - 1][k] == buf[k];
    }
    assert buf'[start..i] == buf'[start..i - 1] + [buf'[i - 1]];
    forall k | 0 <= k < |done| ensures Placed(buf', argv[1 + k], done[k], start) {
      assert Placed(buf, argv[1 + k], done[k], start);
      var p, n := argv[1 + k].pos, |done[k]|;
      assert forall j | 0 <= j < i - 1 :: buf'[j] == buf'[..i - 1][j] == buf[..i - 1][j] == buf[j];
      assert buf'[p..p + n] == buf[p..p + n];
    }
  }

  /** A separator never follows a backslash, whether an argument is being collected or not. */
  lemma PreviousChar(buf: seq<char>, argv: seq<Arg>, argc: nat, i: nat, start: nat, done: seq<string>, arg: string)
    requires Scanning(buf, argv, argc, i, start, done, arg) && i > 0
    ensures Escaping(arg) <==> buf[i - 1] == '\\'
  {
    if arg != "" {
      assert buf[start..i][|arg| - 1] == buf[i - 1];
    }
  }

  /** The second pass at a whitespace character that separates: it becomes a NUL. */
  method CutArgument(line: array<char>, ghost argv: seq<Arg>, ghost argc: nat, i: nat,
                     ghost start: nat, ghost done: seq<string>, ghost arg: string)
    requires Scanning(line[..], argv, argc, i, start, done, arg) && line[i] != NUL
    modifies line
    ensures i + 1 < line.Length && Scanning(line[..], argv, argc, i + 1, i + 1, done + Flush(arg), "")
    ensures CStr(line[i + 1..]) == old(CStr(line[i + 1..]))
  {
    hide CStr;
    hide Scanning;
    hide Flush;
    ghost var buf := line[..];
    ScanningFits(buf, argv, argc, i, start, done, arg);
    RestOf(buf, i);
    ScanSeparator(buf, argv, argc, i, start, done, arg);
    line[i] := NUL;
    assert line[..] == buf[i := NUL];
    assert line[i + 1..] == buf[i + 1..] == old(line[i + 1..]);
  }

  /** The second pass at a whitespace character behind a backslash: the rest of the line moves over the backslash. */
  method KeepQuoted(line: array<char>, ghost argv: seq<Arg>, ghost argc: nat, i: nat,
                    ghost start: nat, ghost done: seq<string>, ghost arg: string)
    requires Scanning(line[..], argv, argc, i, start, done, arg) && Escaping(arg) && line[i] != NUL
    modifies line
    ensures Scanning(line[..], argv, argc, i, start, done, arg[..|arg| - 1] + [old(line[i])])
    ensures i + 1 < line.Length && CStr(line[i..]) == old(CStr(line[i + 1..]))
  {
    hide CStr;
    hide Scanning;
    ghost var buf := line[..];
    ScanningFits(buf, argv, argc, i, start, done, arg);
    EscapingNotEmpty(arg);
    RestOf(buf, i);
    assert buf[i..] == line[i..];
    RemoveQuote(line, i);
    assert line[..][i..] == line[i..] && line[..][..i - 1] == line[..i - 1];
    ScanQuoted(buf, line[..], argv, argc, i, start, done, arg);
  }

  /** The second pass at a character of an argument; its first character gets an entry in `argv`. */
  method TakeChar(line: array<char>, argv: array<Arg>, argc0: nat, i: nat, inarg: bool,
                  ghost start0: nat, ghost done: seq<string>, ghost arg: string) returns (argc: nat, ghost start: nat)
    requires Scanning(line[..], argv[..], argc0, i, start0, done, arg) && (inarg <==> arg != "")
    requires line[i] != NUL && (!inarg ==> argc0 + 1 < argv.Length)
    modifies argv
    ensures i + 1 < line.Length && Scanning(line[..], argv[..], argc, i + 1, start, done, arg + [line[i]])
  {
    hide CStr;
    hide Scanning;
    argc, start := argc0, start0;
    ScanningFits(line[..], argv[..], argc, i, start, done, arg);
    RestOf(line[..], i);
    if !inarg {
      assert arg + [line[i]] == [line[i]];
      ScanStart(line[..], argv[..], argc, i, start, done);
      ghost var argv0 := argv[..];
      argv[argc] := At(i);
      assert argv[..] == argv0[argc := At(i)];
      argc, start := argc + 1, i;
    } else {
      ScanMore(line[..], argv[..], argc, i, start, done, arg);
    }
  }

  /** One character of the second pass. `all` is what the whole line means. */
  method ScanChar(line: array<char>, argv: array<Arg>, argc0: nat, i0: nat, inarg0: bool,
                  ghost start0: nat, ghost done0: seq<string>, ghost arg0: string, ghost all: seq<string>)
    returns (argc: nat, i: nat, inarg: bool, ghost start: nat, ghost done: seq<string>, ghost arg: string)
    requires Scanning(line[..], argv[..], argc0, i0, start0, done0, arg0) && (inarg0 <==> arg0 != "")
    requires all == done0 + Tokenize(CStr(line[i0..]), arg0) && argv.Length == |all| + 2
    requires i0 < line.Length && line[i0] != NUL && (i0 == 0 ==> !IsSpace(line[0]))
    modifies line, argv
    ensures Scanning(line[..], argv[..], argc, i, start, done, arg) && (inarg <==> arg != "") && 0 < i < line.Length
    ensures all == done + Tokenize(CStr(line[i..]), arg)
    ensures |CStr(line[i..])| < old(|CStr(line[i0..])|)
  {
    hide CStr;
    hide Tokenize;
    hide Scanning;
    hide Escaping;
    hide Flush;
    ghost var c := line[i0];
    ghost var rest := CStr(line[i0 + 1..]);
    ScanningFits(line[..], argv[..], argc0, i0, start0, done0, arg0);
    RestOf(line[..], i0);
    assert line[..][i0..] == line[i0..] && line[..][i0 + 1..] == line[i0 + 1..];
    TokenizeStep(CStr(line[i0..]), arg0);
    argc, i, inarg, start, done, arg := argc0, i0, inarg0, start0, done0, arg0;
    if IsSpace(line[i]) {
      PreviousChar(line[..], argv[..], argc, i, start, done, arg);
      if line[i - 1] != '\\' {
        CutArgument(line, argv[..], argc, i, start, done, arg);
        assert done + (Flush(arg) + Tokenize(rest, "")) == done + Flush(arg) + Tokenize(rest, "");
        done, arg, start, inarg, i := done + Flush(arg), "", i + 1, false, i + 1;
        return;
      }
      EscapingNotEmpty(arg);
      KeepQuoted(line, argv[..], argc, i, start, done, arg);
      arg := arg[..|arg| - 1] + [c];
    } else {
      SomethingLeft(rest, arg + [c]);
      argc, start := TakeChar(line, argv, argc, i, inarg, start, done, arg);
      arg := arg + [c];
      inarg := true;
      i := i + 1;
    }
  }

  lemma ScanningFits(buf: seq<char>, argv: seq<Arg>, argc: nat, i: nat, start: nat, done: seq<string>, arg: string)
    requires Scanning(buf, argv, argc, i, start, done, arg)
    ensures start + |arg| == i < |buf| && NUL in buf[i..] && argc == 1 + |done| + (if arg == "" then 0 else 1)
      && argc < |argv|
  {
  }

  lemma EscapingNotEmpty(arg: string)
    requires Escaping(arg)
    ensures arg != ""
  {
  }

  /** Once an argument has been started, at least one more will be delivered. */
  lemma {:induction false} SomethingLeft(s: string, arg: string)
    requires arg != ""
    ensures |Tokenize(s, arg)| >= 1
    decreases |s|
  {
    if s != "" && (!IsSpace(s[0]) || Escaping(arg)) {
      SomethingLeft(s[1..], if IsSpace(s[0]) then arg[..|arg| - 1] + [s[0]] else arg + [s[0]]);
    }
  }

  predicate PointsAt(buf: seq<char>, a: Arg, arg: string) {
    a.At? && a.pos < |buf| && CStr(buf[a.pos..]) == arg
  }

  /** The result of the second pass: all arguments in place, between the program name and the end mark. */
  ghost predicate Delivered(buf: seq<char>, argv: seq<Arg>, args: seq<string>) {
    && |argv| == |args| + 2 && argv[0] == Program && argv[|args| + 1] == Null
    && forall k | 0 <= k < |args| :: PointsAt(buf, argv[1 + k], args[k])
  }

  /** Second pass: cuts the line into its arguments. */
  method SplitArgs(line: array<char>, argv: array<Arg>, ghost all: seq<string>) returns (argc: nat)
    requires NUL in line[..] && (line[0] != NUL ==> !IsSpace(line[0]))
    requires all == Tokens(CStr(line[..])) && argv.Length == |all| + 2
    modifies line, argv
    ensures argc == |all| + 1 && Delivered(line[..], argv[..], all)
  {
    hide Scanning;
    hide Tokenize;
    hide CStr;
    hide Delivered;
    argv[0] := Program;
    argc := 1;
    var inarg := false;
    var i: nat := 0;
    ghost var start: nat, done: seq<string>, arg := 0, [], "";
    ScanBegins(line[..], argv[..]);
    assert line[0..] == line[..];
    while line[i] != NUL
      invariant i < line.Length && argv.Length == |all| + 2
      invariant Scanning(line[..], argv[..], argc, i, start, done, arg) && (inarg <==> arg != "")
      invariant all == done + Tokenize(CStr(line[i..]), arg)
      invariant i == 0 ==> !IsSpace(line[0]) || line[0] == NUL
      decreases |CStr(line[i..])|
    {
      argc, i, inarg, start, done, arg := ScanChar(line, argv, argc, i, inarg, start, done, arg, all);
    }
    ScanningFits(line[..], argv[..], argc, i, start, done, arg);
    assert line[..][i..] == line[i..];
    Terminator(line[i..]);
    assert CStr(line[i..]) == "";
    TokenizeEnd(arg);
    ScanEnds(line[..], argv[..], argc, i, start, done, arg);
    ghost var before := argv[..];
    argv[argc] := Null;
    assert argv[..] == before[argc := Null];
  }

  /** Both passes. The arguments are left in the buffer, each ended by a NUL, and `argv` points at them.
      Without arguments the result is false. */
  method ApplyCommandline(line: array<char>) returns (ok: bool, argv: array<Arg>, argc: nat)
    requires NUL in line[..] && (line[0] != NUL ==> !IsSpace(line[0]))
    modifies line
    ensures var args := Tokens(old(CStr(line[..])));
      ok == (args != []) && (ok ==> argc == |args| + 1 && Delivered(line[..], argv[..], args))
  {
    hide Delivered;
    hide Tokens;
    ghost var all := Tokens(CStr(line[..]));
    argc := CountArgs(line);
    if argc == 0 {
      argv := new Arg[0];
      return false, argv, argc;
    }
    argv := new Arg[argc + 2](_ => Null);
    argc := SplitArgs(line, argv, all);
    ok := true;
  }

  lemma ScanBegins(buf: seq<char>, argv: seq<Arg>)
    requires NUL in buf && |argv| > 1 && argv[0] == Program
    ensures Scanning(buf, argv, 1, 0, 0, [], "")
  {
    assert buf[0..] == buf;
  }

  /** At the end of the line the argument that is being collected is in place, too. */
  lemma ScanEnds(buf: seq<char>, argv: seq<Arg>, argc: nat, i: nat, start: nat, done: seq<string>, arg: string)
    requires Scanning(buf, argv, argc, i, start, done, arg) && buf[i] == NUL
    ensures var all := done + Flush(arg);
            argc == 1 + |all| && argc < |argv| && (argc == |argv| - 1 ==> Delivered(buf, argv[argc := Null], all))
  {
    hide CStr;
    forall k | 0 <= k < |done| ensures Placed(buf, argv[1 + k], done[k], i + 1) {
      assert Placed(buf, argv[1 + k], done[k], start);
    }
    var all := done + Flush(arg);
    var argv' := argv[argc := Null];
    forall k | 0 <= k < |all| ensures PointsAt(buf, argv'[1 + k], all[k]) {
      PlacedString(buf, argv[1 + k], all[k], i + 1);
    }
  }

  lemma PlacedString(buf: seq<char>, a: Arg, arg: string, end: nat)
    requires Placed(buf, a, arg, end)
    ensures PointsAt(buf, a, arg)
  {
    assert buf[a.pos..][..|arg|] == buf[a.pos..a.pos + |arg|];
    CStrIs(buf[a.pos..], |arg|);
  }
}
