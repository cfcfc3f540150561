/** `parseline`, the tiny shell's command-line tokenizer
    (Labs/Lab06-shell/tsh.c): arguments are separated by spaces, a
    single-quoted argument runs to the next quote, and a last argument
    starting with `&` asks for a background job. */
module ShellParse {

  /** Size of the static copy of the command line. */
  const MAXLINE: int := 1024

  /** The command line as `parseline` scans it: its last character (the
      newline `fgets` keeps) is replaced by a space. */
  function Buffer(cmdline: string): (s: string)
    requires |cmdline| >= 1
    ensures |s| == |cmdline| && s[|s| - 1] == ' '
    ensures forall m :: 0 <= m < |s| - 1 ==> s[m] == cmdline[m]
  {
    cmdline[..|cmdline| - 1] + " "
  }

  /** The first position at or after `p` that is not a space. */
  function SkipSpaces(s: string, p: nat): (q: nat)
    requires p <= |s|
    ensures p <= q <= |s|
    decreases |s| - p
  {
    if p == |s| || s[p] != ' ' then p else SkipSpaces(s, p + 1)
  }

  /** `SkipSpaces` passes only spaces and stops at the first other
      character. */
  lemma {:induction false} SkipSpacesStops(s: string, p: nat)
    requires p <= |s|
    ensures forall m :: p <= m < SkipSpaces(s, p) ==> s[m] == ' '
    ensures SkipSpaces(s, p) < |s| ==> s[SkipSpaces(s, p)] != ' '
    decreases |s| - p
  {
    if p < |s| && s[p] == ' ' {
      SkipSpacesStops(s, p + 1);
    }
  }

  /** `strchr` from position `p`: the first `c` at or after `p`, or `|s|`. */
  function IndexFrom(s: string, p: nat, c: char): (d: nat)
    requires p <= |s|
    ensures p <= d <= |s|
    decreases |s| - p
  {
    if p == |s| || s[p] == c then p else IndexFrom(s, p + 1, c)
  }

  /** `IndexFrom` finds the first `c` at or after `p`. */
  lemma {:induction false} IndexFromFinds(s: string, p: nat, c: char)
    requires p <= |s|
    ensures forall m :: p <= m < IndexFrom(s, p, c) ==> s[m] != c
    ensures IndexFrom(s, p, c) < |s| ==> s[IndexFrom(s, p, c)] == c
    decreases |s| - p
  {
    if p < |s| && s[p] != c {
      IndexFromFinds(s, p + 1, c);
    }
  }

  /** Where the next argument starts and where its delimiter is, from
      position `p`: leading spaces are skipped, and a quote makes the
      argument run to the next quote instead of the next space. */
  datatype Cut = Cut(start: nat, delim: nat)

  function NextCut(s: string, p: nat): (c: Cut)
    requires p <= |s|
    ensures p <= c.start <= c.delim <= |s|
  {
    var q := SkipSpaces(s, p);
    if q < |s| && s[q] == '\'' then Cut(q + 1, IndexFrom(s, q + 1, '\''))
    else Cut(q, IndexFrom(s, q, ' '))
  }

  /** The arguments `parseline` collects from position `p`: each runs from
      its start to its delimiter; text with no delimiter after it is dropped. */
  function Tokens(s: string, p: nat): seq<string>
    requires p <= |s|
    decreases |s| - p, 1
  {
    Collect(s, NextCut(s, p))
  }

  /** The arguments from the one cut at `c` on. */
  function Collect(s: string, c: Cut): seq<string>
    requires c.start <= c.delim <= |s|
    decreases |s| - c.delim, 0
  {
    if c.delim == |s| then [] else [s[c.start..c.delim]] + Tokens(s, c.delim + 1)
  }

  /** The arguments and the background flag `parseline` returns. */
  datatype Parsed = Parsed(argv: seq<string>, bg: int)

  /** The result of `parseline`: a blank line gives no arguments and 1; a
      last argument starting with `&` is dropped and gives 1. */
  function ParseResult(args: seq<string>): Parsed {
    if args == [] then Parsed([], 1)
    else if args[|args| - 1] != "" && args[|args| - 1][0] == '&' then Parsed(args[..|args| - 1], 1)
    else Parsed(args, 0)
  }

  /** Skip the spaces from `p` and find the delimiter of the argument
      there, as the body of `parseline`'s loop does. */
  method FindCut(s: string, p: nat) returns (buf: nat, delim: nat)
    requires p <= |s|
    ensures Cut(buf, delim) == NextCut(s, p)
  {
    buf := p;
    while buf < |s| && s[buf] == ' '
      invariant p <= buf <= |s| && SkipSpaces(s, buf) == SkipSpaces(s, p)
    {
      buf := buf + 1;
    }
    if buf < |s| && s[buf] == '\'' {
      buf := buf + 1;
      delim := IndexFrom(s, buf, '\'');
    } else {
      delim := IndexFrom(s, buf, ' ');
    }
  }

  /** The `while ((delim = strchr(buf, ' ')))` loop of `parseline`. */
  method CollectArgs(s: string) returns (argv: seq<string>)
    ensures argv == Tokens(s, 0)
  {
    ghost var all := Tokens(s, 0);
    var buf: nat, delim: nat := FindCut(s, 0);
    ghost var rest := Collect(s, Cut(buf, delim));
    argv := [];
    while delim < |s|
      invariant buf <= delim <= |s|
      invariant rest == Collect(s, Cut(buf, delim))
      invariant argv + rest == all
      decreases |s| - delim
    {
      var arg := s[buf..delim];
      CollectStep(s, buf, delim);
      ghost var later := Tokens(s, delim + 1);
      AppendAssoc(argv, [arg], later);
      argv := argv + [arg];
      buf, delim := FindCut(s, delim + 1);
      rest := later;
    }
    assert rest == [];
  }

  /** `parseline`. */
  method ParseLine(cmdline: string) returns (argv: seq<string>, bg: int)
    requires 1 <= |cmdline| < MAXLINE
    ensures Parsed(argv, bg) == ParseResult(Tokens(Buffer(cmdline), 0))
  {
    var s := Buffer(cmdline);
    argv := CollectArgs(s);
    if |argv| == 0 {
      return [], 1;
    }
    if argv[|argv| - 1] != "" && argv[|argv| - 1][0] == '&' {
      return argv[..|argv| - 1], 1;
    }
    return argv, 0;
  }

  /** The argument at a delimiter comes before the rest. */
  lemma CollectStep(s: string, start: nat, delim: nat)
    requires start <= delim < |s|
    ensures Collect(s, Cut(start, delim)) == [s[start..delim]] + Tokens(s, delim + 1)
  {
  }

  /** A quote makes one argument of everything up to the next quote,
      spaces included. */
  lemma QuotedArg(s: string, p: nat, e: nat)
    requires p < e < |s| && s[p] == '\'' && s[e] == '\''
    requires forall m :: p < m < e ==> s[m] != '\''
    ensures Tokens(s, p) == [s[p + 1..e]] + Tokens(s, e + 1)
  {
    IndexFromFinds(s, p + 1, '\'');
    assert NextCut(s, p) == Cut(p + 1, e);
    CollectStep(s, p + 1, e);
  }

  /** A quote with no closing quote after it drops the rest of the line. */
  lemma UnterminatedQuote(s: string, p: nat)
    requires p < |s| && s[p] == '\''
    requires forall m :: p < m < |s| ==> s[m] != '\''
    ensures Tokens(s, p) == []
  {
    IndexFromFinds(s, p + 1, '\'');
    assert NextCut(s, p) == Cut(p + 1, |s|);
  }

  lemma AppendAssoc<T>(a: seq<T>, b: seq<T>, c: seq<T>)
    ensures a + (b + c) == (a + b) + c
  {
  }

  // ---------------------------------------------------------------------
  // Without quotes: the words of the line

  /** The space-separated words of `s`, read one character at a time with
      the word being built in `cur`. */
  function WordsAcc(s: string, cur: string): seq<string>
    decreases |s|
  {
    if s == [] then (if cur == "" then [] else [cur])
    else if s[0] == ' ' then (if cur == "" then [] else [cur]) + WordsAcc(s[1..], "")
    else WordsAcc(s[1..], cur + [s[0]])
  }

  function Words(s: string): seq<string> {
    WordsAcc(s, "")
  }

  /** Spaces before a word are skipped. */
  lemma {:induction false} WordsSkip(s: string, p: nat, q: nat)
    requires p <= q <= |s|
    requires forall m :: p <= m < q ==> s[m] == ' '
    ensures WordsAcc(s[p..], "") == WordsAcc(s[q..], "")
    decreases q - p
  {
    if p < q {
      assert s[p..][1..] == s[p + 1..];
      WordsSkip(s, p + 1, q);
    }
  }

  /** The characters of a word are gathered into `cur`. */
  lemma {:induction false} WordsGather(s: string, p: nat, q: nat, cur: string)
    requires p <= q <= |s|
    requires forall m :: p <= m < q ==> s[m] != ' '
    ensures WordsAcc(s[p..], cur) == WordsAcc(s[q..], cur + s[p..q])
    decreases q - p
  {
    if p < q {
      assert s[p..][1..] == s[p + 1..];
      assert cur + [s[p]] + s[p + 1..q] == cur + s[p..q];
      WordsGather(s, p + 1, q, cur + [s[p]]);
    } else {
      assert cur + s[p..q] == cur;
    }
  }

  /** A space ends the word being built. */
  lemma {:induction false} WordsAtSpace(s: string, d: nat, w: string)
    requires d < |s| && s[d] == ' ' && w != ""
    ensures WordsAcc(s[d..], w) == [w] + WordsAcc(s[d + 1..], "")
  {
    assert s[d..][1..] == s[d + 1..];
  }

  /** A word and the space after it. */
  lemma WordThenSpace(s: string, q: nat, d: nat)
    requires q < d < |s| && s[d] == ' '
    requires forall m :: q <= m < d ==> s[m] != ' '
    ensures WordsAcc(s[q..], "") == [s[q..d]] + WordsAcc(s[d + 1..], "")
  {
    WordsGather(s, q, d, "");
    assert "" + s[q..d] == s[q..d];
    WordsAtSpace(s, d, s[q..d]);
  }

  /** One argument of a quote-free line that ends in a space: the
      tokenizer and the word splitter both take the word starting at the
      first non-space. */
  lemma {:induction false} FirstWord(s: string, p: nat) returns (d: nat)
    requires p < |s| && s[|s| - 1] == ' '
    requires forall m :: 0 <= m < |s| ==> s[m] != '\''
    requires SkipSpaces(s, p) < |s|
    ensures SkipSpaces(s, p) < d < |s|
    ensures Tokens(s, p) == [s[SkipSpaces(s, p)..d]] + Tokens(s, d + 1)
    ensures WordsAcc(s[p..], "") == [s[SkipSpaces(s, p)..d]] + WordsAcc(s[d + 1..], "")
  {
    var q := SkipSpaces(s, p);
    SkipSpacesStops(s, p);
    WordsSkip(s, p, q);
    d := IndexFrom(s, q, ' ');
    IndexFromFinds(s, q, ' ');
    assert NextCut(s, p) == Cut(q, d);
    assert s[|s| - 1] == ' ';
    CollectStep(s, q, d);
    WordThenSpace(s, q, d);
  }

  /** On a line without quotes that ends in a space, `parseline` splits
      out exactly the words. */
  lemma {:induction false} TokensAreWords(s: string, p: nat)
    requires p <= |s| && s != [] && s[|s| - 1] == ' '
    requires forall m :: 0 <= m < |s| ==> s[m] != '\''
    ensures Tokens(s, p) == WordsAcc(s[p..], "")
    decreases |s| - p
  {
    var q := SkipSpaces(s, p);
    if q == |s| {
      SkipSpacesStops(s, p);
      WordsSkip(s, p, q);
      assert NextCut(s, p) == Cut(q, q);
      assert s[q..] == [];
    } else {
      var d := FirstWord(s, p);
      TokensAreWords(s, d + 1);
    }
  }

  /** A line of words, each followed by one space, parses to those words
      (the background flag aside). */
  lemma ParseWords(cmdline: string)
    requires 1 <= |cmdline| && forall m :: 0 <= m < |cmdline| ==> cmdline[m] != '\''
    ensures Tokens(Buffer(cmdline), 0) == Words(cmdline[..|cmdline| - 1] + " ")
  {
    var s := Buffer(cmdline);
    TokensAreWords(s, 0);
    assert s[0..] == s;
  }

  /** `ls -l &` runs `ls -l` in the background. */
  lemma BackgroundExample(cmdline: string)
    requires cmdline == "ls -l &\n"
    ensures ParseResult(Tokens(Buffer(cmdline), 0)) == Parsed(["ls", "-l"], 1)
  {
    var s := Buffer(cmdline);
    assert s == "ls -l & ";
    TokensAreWords(s, 0);
    assert s[0..] == s;
    WordThenSpace(s, 0, 2);
    WordThenSpace(s, 3, 5);
    WordThenSpace(s, 6, 7);
    assert s[0..2] == "ls" && s[3..5] == "-l" && s[6..7] == "&" && s[8..] == [];
  }

  /** A line of spaces has no arguments and counts as a background job. */
  lemma {:induction false} BlankLine(cmdline: string)
    requires 1 <= |cmdline| && forall m :: 0 <= m < |cmdline| - 1 ==> cmdline[m] == ' '
    ensures ParseResult(Tokens(Buffer(cmdline), 0)) == Parsed([], 1)
  {
    var s := Buffer(cmdline);
    assert SkipSpaces(s, 0) == |s| by {
      assert forall m :: 0 <= m < |s| ==> s[m] == ' ';
      SkipAll(s, 0);
    }
  }

  lemma {:induction false} SkipAll(s: string, p: nat)
    requires p <= |s| && forall m :: p <= m < |s| ==> s[m] == ' '
    ensures SkipSpaces(s, p) == |s|
    decreases |s| - p
  {
    if p < |s| {
      SkipAll(s, p + 1);
    }
  }
}
