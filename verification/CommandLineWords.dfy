/** What the tokenizer makes of words that are not quoted, with any whitespace between them. */
module CommandLineWords {
  import opened CommandLine

  /** Space, tab, line feed, vertical tab, form feed and carriage return. */
  predicate White(c: char) { c as int == 32 || 9 <= c as int <= 13 }

  predicate Blank(s: string) { forall k | 0 <= k < |s| :: White(s[k]) }

  /** A word: not empty, without whitespace, and without a backslash at its end. */
  predicate Word(s: string) {
    s != "" && (forall k | 0 <= k < |s| :: !White(s[k])) && s[|s| - 1] != '\\'
  }

  /** Each word with the gap behind it. */
  function Text(words: seq<string>, gaps: seq<string>): string
    requires |words| == |gaps|
  {
    if words == [] then "" else words[0] + gaps[0] + Text(words[1..], gaps[1..])
  }

  /** Whitespace of any kind and length separates words, and is ignored before the first and behind the last of them. */
  lemma {:induction false} WordsAreTokens(indent: string, words: seq<string>, gaps: seq<string>)
    requires |words| == |gaps| && Blank(indent) && (forall k | 0 <= k < |words| :: Word(words[k]) && Blank(gaps[k]))
    requires forall k | 0 <= k < |words| - 1 :: gaps[k] != ""
    ensures Tokens(indent + Text(words, gaps)) == words
    decreases |words|
  {
    hide Tokenize;
    hide White;
    hide Blank;
    SkipBlank(indent, Text(words, gaps));
    if words == [] {
      TokenizeEnd("");
    } else {
      var rest := Text(words[1..], gaps[1..]);
      assert forall k | 0 <= k < |words[1..]| :: words[1..][k] == words[k + 1] && gaps[1..][k] == gaps[k + 1];
      TakeWord(words[0], gaps[0] + rest, "");
      assert Text(words, gaps) == words[0] + (gaps[0] + rest) && "" + words[0] == words[0];
      WordsAreTokens(gaps[0], words[1..], gaps[1..]);
      if gaps[0] == "" {
        assert gaps[0] + rest == "";
        TokenizeEnd(words[0]);
      } else {
        FirstBlank(words[0], gaps[0], rest);
      }
      assert [words[0]] + words[1..] == words;
    }
  }

  lemma {:induction false} SkipBlank(s: string, rest: string)
    requires Blank(s)
    ensures Tokenize(s + rest, "") == Tokenize(rest, "")
    decreases |s|
  {
    if s == "" {
      assert s + rest == rest;
    } else {
      assert (s + rest)[1..] == s[1..] + rest;
      SkipBlank(s[1..], rest);
    }
  }

  lemma {:induction false} TakeWord(s: string, rest: string, arg: string)
    requires forall k | 0 <= k < |s| :: !White(s[k])
    ensures Tokenize(s + rest, arg) == Tokenize(rest, arg + s)
    decreases |s|
  {
    if s == "" {
      assert s + rest == rest && arg + s == arg;
    } else {
      assert (s + rest)[1..] == s[1..] + rest;
      TakeWord(s[1..], rest, arg + [s[0]]);
      assert arg + [s[0]] + s[1..] == arg + s;
    }
  }

  /** Whitespace behind a word ends it. */
  lemma FirstBlank(word: string, gap: string, rest: string)
    requires Word(word) && gap != "" && Blank(gap)
    ensures Tokenize(gap + rest, word) == [word] + Tokenize(gap + rest, "")
  {
    assert White(gap[0]);
    assert (gap + rest)[1..] == gap[1..] + rest;
    assert Tokenize(gap + rest, "") == Tokenize(gap[1..] + rest, "");
  }

  /** Two words are separated by whitespace and by nothing else. */
  lemma OnlyWhiteSeparates(a: string, c: char, b: string)
    requires Word(a) && Word(b)
    ensures Tokens(a + [c] + b) == [a, b] <==> White(c)
  {
    if White(c) {
      WordsAreTokens("", [a, b], [[c], ""]);
      assert [a, b][1..] == [b] && [[c], ""][1..] == [""] && [b][1..] == [];
      assert Text([b], [""]) == b;
      assert "" + Text([a, b], [[c], ""]) == a + [c] + b;
    } else {
      var s := a + [c] + b;
      TakeWord(s, "", "");
      assert s + "" == s && "" + s == s;
      TokenizeEnd(s);
    }
  }
}
