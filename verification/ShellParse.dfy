/** The shell's parser as functions on the text of a line. */
module ShellParse {
  import opened ShellCommand

  const SPACE := ' '

  // ---------------------------------------------------------------- utils.c and the tokens of a command

  /** block_contains. */
  function IndexOf(s: string, c: char): (i: int)
    ensures -1 <= i < |s| && (i >= 0 ==> s[i] == c) && (i < 0 ==> c !in s)
    ensures i >= 0 ==> c !in s[..i]
  {
    if s == "" then -1
    else if s[0] == c then 0
    else
      var i := IndexOf(s[1..], c);
      assert i >= 0 ==> s[..i + 1] == [s[0]] + s[1..][..i];
      if i < 0 then -1 else i + 1
  }

  function SkipSpaces(s: string): (r: string)
    ensures |r| <= |s|
  {
    if s != "" && s[0] == SPACE then SkipSpaces(s[1..]) else s
  }

  /** Up to the first occurrence of `c`. */
  function Before(s: string, c: char): string { if IndexOf(s, c) < 0 then s else s[..IndexOf(s, c)] }

  /** What follows the first `c`, nothing if there is none. */
  function AfterFirst(s: string, c: char): string { if IndexOf(s, c) < 0 then "" else s[IndexOf(s, c) + 1..] }

  /** The environment's variables, "?" the last status. */
  function Expand(tok: string, vars: map<string, string>): string {
    if tok == "" || tok[0] != '$' then tok
    else if tok[1..] in vars then vars[tok[1..]]
    else ""
  }

  /** What parse_exec does with one token. */
  function Feed(c: ExecCmd, tok: string, vars: map<string, string>): ExecCmd {
    var o := IndexOf(tok, '>');
    if o == 0 then c.(outFile := tok[1..], redir := true)
    else if o == 1 then c.(errFile := if tok[2..] == "&1" then c.outFile else tok[2..], redir := true)
    else if o > 1 then c.(redir := true)
    else if IndexOf(tok, '<') >= 0 then c.(inFile := tok[1..], redir := true)
    else if IndexOf(tok, '=') > 0 && IndexOf(tok, '-') < 0 then c.(eargv := c.eargv + [tok])
    else if Expand(tok, vars) != "" then c.(argv := c.argv + [Expand(tok, vars)])
    else c
  }

  const BLANK := ExecCmd([], [], "", "", "", false)

  /** The loop of parse_exec. */
  function Tokens(c: ExecCmd, s: string, vars: map<string, string>): ExecCmd
    decreases |s|
  {
    if s == "" then c
    else Tokens(Feed(c, Before(s, SPACE), vars), AfterFirst(s, SPACE), vars)
  }

  function ParseExec(s: string, vars: map<string, string>): Cmd { Simple(Tokens(BLANK, s, vars)) }

  /** parse_cmd; the character before the text is not '>'. */
  function ParseCmd(s: string, vars: map<string, string>): Cmd {
    if s == "" then Null
    else
      var i := IndexOf(s, '&');
      if i >= 0 && !(i > 0 && s[i - 1] == '>') then Back(ParseExec(s[..i], vars)) else ParseExec(s, vars)
  }

  function ParseLine(s: string, vars: map<string, string>): Cmd
    decreases |s|
  {
    var right := SkipSpaces(AfterFirst(s, '|'));
    PipeCreate(ParseCmd(Before(s, '|'), vars),
               if IndexOf(right, '|') > 0 then ParseLine(right, vars) else ParseCmd(right, vars))
  }

  // ---------------------------------------------------------------- spaces do not matter

  /** The words of a text. */
  function Words(s: string): seq<string>
    decreases |s|
  {
    if s == "" then []
    else (if Before(s, SPACE) == "" then [] else [Before(s, SPACE)]) + Words(AfterFirst(s, SPACE))
  }

  function Collect(c: ExecCmd, words: seq<string>, vars: map<string, string>): ExecCmd
    decreases |words|
  {
    if words == [] then c else Collect(Feed(c, words[0], vars), words[1..], vars)
  }

  /** A command is its words. */
  lemma {:induction false} TokensAreWords(c: ExecCmd, s: string, vars: map<string, string>)
    ensures Tokens(c, s, vars) == Collect(c, Words(s), vars)
    decreases |s|
  {
    if s != "" {
      var w, rest := Before(s, SPACE), AfterFirst(s, SPACE);
      TokensAreWords(Feed(c, w, vars), rest, vars);
      if w == "" {
        assert Feed(c, w, vars) == c;
        assert Words(s) == Words(rest);
      } else {
        assert Words(s) == [w] + Words(rest);
        assert ([w] + Words(rest))[1..] == Words(rest);
      }
    }
  }

  lemma {:induction false} WordsSkip(s: string)
    ensures Words(SkipSpaces(s)) == Words(s)
  {
    if s != "" && s[0] == SPACE {
      WordsSkip(s[1..]);
      assert Before(s, SPACE) == "" && AfterFirst(s, SPACE) == s[1..];
      assert [] + Words(s[1..]) == Words(s[1..]);
    }
  }

  // ---------------------------------------------------------------- pipelines

  /** The texts between the bars. */
  function Segments(s: string): (r: seq<string>)
    ensures r != []
    decreases |s|
  {
    if IndexOf(s, '|') < 0 then [s] else [Before(s, '|')] + Segments(AfterFirst(s, '|'))
  }

  /** Its first '&', if any, belongs to a redirection. */
  predicate Foreground(s: string) {
    var i := IndexOf(s, '&');
    i < 0 || (i > 0 && s[i - 1] == '>')
  }

  predicate IsCommand(s: string) { Words(s) != [] && Foreground(s) }

  function Meant(s: string, vars: map<string, string>): Cmd { Simple(Collect(BLANK, Words(s), vars)) }

  function MeantAll(segments: seq<string>, vars: map<string, string>): (r: seq<Cmd>)
    ensures |r| == |segments| && forall i :: 0 <= i < |r| ==> r[i] == Meant(segments[i], vars)
  {
    if segments == [] then [] else [Meant(segments[0], vars)] + MeantAll(segments[1..], vars)
  }

  lemma CommandMeant(s: string, vars: map<string, string>)
    requires IsCommand(s)
    ensures ParseCmd(s, vars) == Meant(s, vars)
  {
    hide Feed;
    TokensAreWords(BLANK, s, vars);
  }

  lemma {:induction false} SkipKeepsCommand(s: string)
    requires IsCommand(s)
    ensures IsCommand(SkipSpaces(s)) && SkipSpaces(s) != "" && SkipSpaces(s)[0] != SPACE
  {
    WordsSkip(s);
    hide Words;
    SkipForeground(s);
    NonBlank(SkipSpaces(s));
    SkipStart(s);
  }

  lemma NonBlank(s: string)
    requires Words(s) != []
    ensures s != ""
  {
  }

  lemma {:induction false} SkipStart(s: string)
    ensures SkipSpaces(s) == "" || SkipSpaces(s)[0] != SPACE
  {
    if s != "" && s[0] == SPACE { SkipStart(s[1..]); }
  }

  lemma {:induction false} SkipForeground(s: string)
    requires Foreground(s)
    ensures Foreground(SkipSpaces(s))
  {
    if s != "" && s[0] == SPACE {
      assert IndexOf(s, '&') == if IndexOf(s[1..], '&') < 0 then -1 else IndexOf(s[1..], '&') + 1;
      SkipForeground(s[1..]);
    }
  }

  lemma {:induction false} SkipSegments(s: string)
    ensures Segments(SkipSpaces(s)) == [SkipSpaces(Segments(s)[0])] + Segments(s)[1..]
  {
    if s != "" && s[0] == SPACE {
      SkipSegments(s[1..]);
      var i := IndexOf(s[1..], '|');
      assert IndexOf(s, '|') == if i < 0 then -1 else i + 1;
      if i >= 0 {
        assert Before(s, '|') == [SPACE] + Before(s[1..], '|');
        assert AfterFirst(s, '|') == AfterFirst(s[1..], '|');
        assert Segments(s) == [Before(s, '|')] + Segments(AfterFirst(s, '|'));
        assert Segments(s[1..]) == [Before(s[1..], '|')] + Segments(AfterFirst(s, '|'));
      }
    } else {
      SkipFirst(s);
      assert Segments(s) == [Segments(s)[0]] + Segments(s)[1..];
    }
  }

  lemma SkipFirst(s: string)
    requires s == "" || s[0] != SPACE
    ensures SkipSpaces(Segments(s)[0]) == Segments(s)[0]
  {
    if IndexOf(s, '|') > 0 { assert Before(s, '|')[0] == s[0]; }
  }

  /** Any line whose segments are commands parses to their right-nested pipeline, whatever its spacing. */
  lemma {:induction false} ParseLineIs(s: string, vars: map<string, string>)
    requires forall seg :: seg in Segments(s) ==> IsCommand(seg)
    ensures ParseLine(s, vars) == Nest(MeantAll(Segments(s), vars))
    decreases |s|
  {
    hide IsCommand, Meant, ParseCmd;
    var first, rest := Before(s, '|'), AfterFirst(s, '|');
    var right := SkipSpaces(rest);
    if IndexOf(s, '|') < 0 {
      assert Segments(s) == [s];
      assert s in Segments(s);
      CommandMeant(s, vars);
      assert MeantAll([s], vars) == [Meant(s, vars)];
      NothingRight(s, vars);
    } else {
      assert Segments(s) == [first] + Segments(rest);
      assert first in Segments(s) && Segments(rest)[0] in Segments(s);
      assert forall seg :: seg in Segments(rest) ==> seg in Segments(s);
      CommandMeant(first, vars);
      SkipSegments(rest);
      SkipKeepsCommand(Segments(rest)[0]);
      SkipMeant(Segments(rest), vars);
      assert forall seg :: seg in Segments(right) ==> IsCommand(seg);
      if IndexOf(right, '|') > 0 {
        ParseLineIs(right, vars);
      } else {
        OneLeft(right, vars);
      }
      NestCons(first, Segments(rest), vars);
      NestNotNull(MeantAll(Segments(right), vars), Segments(right), vars);
    }
  }

  lemma NothingRight(s: string, vars: map<string, string>)
    requires IndexOf(s, '|') < 0
    ensures ParseLine(s, vars) == ParseCmd(s, vars)
  {
    assert SkipSpaces("") == "" && IndexOf("", '|') < 0;
    assert ParseCmd("", vars) == Null;
  }

  lemma OneLeft(right: string, vars: map<string, string>)
    requires IndexOf(right, '|') <= 0 && forall seg :: seg in Segments(right) ==> IsCommand(seg)
    ensures ParseCmd(right, vars) == Nest(MeantAll(Segments(right), vars))
  {
    assert Segments(right)[0] in Segments(right);
    assert Words("") == [];
    assert IndexOf(right, '|') != 0;
    assert Segments(right) == [right];
    CommandMeant(right, vars);
  }

  lemma SkipMeant(segments: seq<string>, vars: map<string, string>)
    requires segments != []
    ensures MeantAll([SkipSpaces(segments[0])] + segments[1..], vars) == MeantAll(segments, vars)
  {
    WordsSkip(segments[0]);
    var a, b := MeantAll([SkipSpaces(segments[0])] + segments[1..], vars), MeantAll(segments, vars);
    forall i | 0 <= i < |segments| ensures a[i] == b[i] {
      assert i > 0 ==> ([SkipSpaces(segments[0])] + segments[1..])[i] == segments[i];
    }
  }

  lemma NestCons(first: string, segments: seq<string>, vars: map<string, string>)
    requires segments != []
    ensures Nest(MeantAll([first] + segments, vars)) == Pipe(Meant(first, vars), Nest(MeantAll(segments, vars)))
  {
    assert ([first] + segments)[1..] == segments;
    var all := MeantAll([first] + segments, vars);
    assert all == [Meant(first, vars)] + MeantAll(segments, vars);
    assert all[1..] == MeantAll(segments, vars);
  }

  lemma NestNotNull(stages: seq<Cmd>, segments: seq<string>, vars: map<string, string>)
    requires stages != [] && stages == MeantAll(segments, vars)
    ensures Nest(stages) != Null
  {
    assert stages[0] == Meant(segments[0], vars);
  }
}
