/** parsing.c over the line buffer, which it cuts in place. */
module ShellBuffer {
  import opened CString
  import opened ShellCommand
  import opened ShellParse

  /** The buffer holds `s` from `off` on, then a NUL. */
  ghost predicate Has(b: seq<char>, off: nat, s: string) {
    off + |s| < |b| && b[off..off + |s|] == s && '\0' !in s && b[off + |s|] == '\0'
  }

  /** ... and nothing but zeros after it, one more at least. */
  ghost predicate HasLine(b: seq<char>, off: nat, s: string) {
    Has(b, off, s) && off + |s| + 1 < |b| && forall k :: off + |s| <= k < |b| ==> b[k] == '\0'
  }

  /** The buffers differ at most in [lo, hi). */
  ghost predicate SameOutside(a: seq<char>, b: seq<char>, lo: nat, hi: nat) {
    |a| == |b| && forall k :: 0 <= k < |a| && !(lo <= k < hi) ==> a[k] == b[k]
  }

  lemma HasChar(b: seq<char>, off: nat, s: string, i: nat)
    requires Has(b, off, s) && i <= |s|
    ensures b[off + i] == if i == |s| then '\0' else s[i]
  {
    assert i < |s| ==> b[off..off + |s|][i] == b[off + i];
  }

  lemma HasKept(a: seq<char>, b: seq<char>, off: nat, s: string, lo: nat, hi: nat)
    requires Has(a, off, s) && SameOutside(a, b, lo, hi) && hi <= off
    ensures Has(b, off, s)
  {
    assert a[off..off + |s|] == b[off..off + |s|];
  }

  lemma {:induction false} IndexAt(s: string, c: char, i: nat)
    requires i <= |s| && c !in s[..i] && (i == |s| || s[i] == c)
    ensures IndexOf(s, c) == if i == |s| then -1 else i
  {
    var k := IndexOf(s, c);
    assert forall j :: 0 <= j < i ==> s[..i][j] == s[j];
    if k >= 0 { assert forall j :: 0 <= j < k ==> s[..k][j] == s[j]; }
    if i == |s| { assert s[..i] == s; }
  }

  // ---------------------------------------------------------------- utils.c

  method BlockContains(s: string, c: char) returns (index: int)
    ensures index == IndexOf(s, c)
  {
    var i := 0;
    while i < |s|
      invariant 0 <= i <= |s| && c !in s[..i]
    {
      if s[i] == c {
        IndexAt(s, c, i);
        return i;
      }
      assert s[..i + 1] == s[..i] + [s[i]];
      i := i + 1;
    }
    IndexAt(s, c, |s|);
    return -1;
  }

  lemma {:induction false} SkipIs(s: string, i: nat)
    requires i <= |s| && (forall k :: 0 <= k < i ==> s[k] == ' ') && (i == |s| || s[i] != ' ')
    ensures SkipSpaces(s) == s[i..]
  {
    if i == 0 {
      assert s[0..] == s;
    } else {
      SkipIs(s[1..], i - 1);
      assert s[1..][i - 1..] == s[i..];
    }
  }

  /** The first loop of split_line: to the splitter or the end of the text. */
  method FindSplitter(buf: array<char>, off: nat, splitter: char, ghost s: string) returns (i: nat)
    requires Has(buf[..], off, s) && splitter != '\0'
    ensures i == |Before(s, splitter)| <= |s| && (i < |s| <==> splitter in s)
    ensures AfterFirst(s, splitter) == if i < |s| then s[i + 1..] else ""
    ensures Before(s, splitter) == s[..i]
  {
    i := 0;
    HasChar(buf[..], off, s, 0);
    while buf[off + i] != splitter && buf[off + i] != '\0'
      invariant i <= |s| && splitter !in s[..i]
      invariant buf[off + i] == if i == |s| then '\0' else s[i]
      decreases |s| - i
    {
      assert s[..i + 1] == s[..i] + [s[i]];
      i := i + 1;
      HasChar(buf[..], off, s, i);
    }
    IndexAt(s, splitter, i);
    assert s[..|s|] == s;
  }

  /** The second loop: past the leading spaces of what follows. */
  method SkipBlanks(buf: array<char>, at: nat, ghost rest: string) returns (next: nat)
    requires Has(buf[..], at, rest)
    ensures at <= next < buf.Length && Has(buf[..], next, SkipSpaces(rest)) && (next > at ==> buf[next - 1] == ' ')
    ensures HasLine(buf[..], at, rest) ==> HasLine(buf[..], next, SkipSpaces(rest))
  {
    hide Has, HasLine;
    var i := 0;
    HasChar(buf[..], at, rest, 0);
    HasRoom(buf[..], at, rest);
    while buf[at + i] == ' '
      invariant i <= |rest|
      invariant forall k :: 0 <= k < i ==> rest[k] == ' '
      invariant buf[at + i] == if i == |rest| then '\0' else rest[i]
      invariant i > 0 ==> buf[at + i - 1] == ' '
      decreases |rest| - i
    {
      i := i + 1;
      HasChar(buf[..], at, rest, i);
    }
    SkipIs(rest, i);
    SuffixThere(buf[..], at, rest, i);
    next := at + i;
  }

  lemma HasRoom(b: seq<char>, off: nat, s: string)
    requires Has(b, off, s)
    ensures off + |s| < |b|
  {
  }

  /** Ends the text at the first splitter and returns where the rest starts, past its leading spaces. */
  method SplitLine(buf: array<char>, off: nat, splitter: char, ghost s: string) returns (next: nat)
    requires HasLine(buf[..], off, s) && splitter != '\0'
    modifies buf
    ensures off < next < buf.Length && off + |Before(s, splitter)| < next
    ensures Has(buf[..], off, Before(s, splitter)) && SameOutside(old(buf[..]), buf[..], off, next)
    ensures Has(buf[..], next, SkipSpaces(AfterFirst(s, splitter))) && buf[next - 1] != '>'
    ensures splitter in s ==> HasLine(buf[..], next, SkipSpaces(AfterFirst(s, splitter)))
    ensures splitter !in s ==> AfterFirst(s, splitter) == ""
  {
    hide Before, AfterFirst, SkipSpaces, HasLine, Has;
    ghost var b := buf[..];
    LineHas(b, off, s);
    HasRoom(b, off, s);
    var i := FindSplitter(buf, off, splitter, s);
    buf[off + i] := '\0';
    CutThere(b, buf[..], off, s, i);
    RestThere(b, buf[..], off, s, i, AfterFirst(s, splitter));
    next := SkipBlanks(buf, off + i + 1, AfterFirst(s, splitter));
  }

  lemma LineHas(b: seq<char>, off: nat, s: string)
    requires HasLine(b, off, s)
    ensures Has(b, off, s) && off + |s| + 1 < |b|
  {
  }

  lemma CutThere(b: seq<char>, after: seq<char>, off: nat, s: string, cut: nat)
    requires Has(b, off, s) && cut <= |s| && |after| == |b| && after == b[off + cut := '\0']
    ensures Has(after, off, s[..cut])
  {
    assert b[off..off + |s|][..cut] == b[off..off + cut];
    assert after[off..off + cut] == b[off..off + cut];
  }

  /** What follows the cut is still in the buffer. */
  lemma RestThere(b: seq<char>, after: seq<char>, off: nat, s: string, cut: nat, rest: string)
    requires HasLine(b, off, s) && cut <= |s| && rest == (if cut < |s| then s[cut + 1..] else "")
    requires |after| == |b| && after == b[off + cut := '\0']
    ensures Has(after, off + cut + 1, rest)
    ensures cut < |s| ==> HasLine(after, off + cut + 1, rest)
  {
    if cut < |s| {
      assert b[off..off + |s|][cut + 1..] == b[off + cut + 1..off + |s|];
      assert after[off + cut + 1..off + |s|] == b[off + cut + 1..off + |s|];
    } else {
      assert after[off + cut + 1..off + cut + 1] == "";
    }
  }

  lemma SuffixThere(b: seq<char>, off: nat, s: string, i: nat)
    requires Has(b, off, s) && i <= |s|
    ensures Has(b, off + i, s[i..])
    ensures HasLine(b, off, s) ==> HasLine(b, off + i, s[i..])
  {
    assert b[off..off + |s|][i..] == b[off + i..off + |s|];
  }

  // ---------------------------------------------------------------- parsing.c

  method GetToken(buf: array<char>, off: nat, idx: nat, ghost s: string) returns (tok: string)
    requires Has(buf[..], off, s) && idx <= |s|
    ensures tok == Before(s[idx..], SPACE)
  {
    ghost var b, rest := buf[..], s[idx..];
    tok := "";
    var i := idx;
    HasChar(b, off, s, i);
    while buf[off + i] != SPACE && buf[off + i] != '\0'
      invariant idx <= i <= |s| && buf[..] == b && tok == s[idx..i] && SPACE !in tok
      invariant b[off + i] == if i == |s| then '\0' else s[i]
      decreases |s| - i
    {
      tok := tok + [buf[off + i]];
      i := i + 1;
      HasChar(b, off, s, i);
    }
    assert rest[..i - idx] == tok;
    IndexAt(rest, SPACE, i - idx);
    assert i == |s| ==> tok == rest;
  }

  /** struct execcmd. */
  class ExecRecord {
    var argv: seq<string>
    var eargv: seq<string>
    var inFile: string
    var outFile: string
    var errFile: string
    var redir: bool

    function Value(): ExecCmd
      reads this
    {
      ExecCmd(argv, eargv, inFile, outFile, errFile, redir)
    }

    /** exec_cmd_create. */
    constructor ()
      ensures Value() == BLANK
    {
      argv, eargv, inFile, outFile, errFile, redir := [], [], "", "", "", false;
    }

    method ParseRedirFlow(arg: string, ghost vars: map<string, string>) returns (taken: bool)
      modifies this
      ensures taken <==> '>' in arg || '<' in arg
      ensures taken ==> Value() == Feed(old(Value()), arg, vars)
      ensures !taken ==> Value() == old(Value())
    {
      var outIdx := BlockContains(arg, '>');
      if outIdx >= 0 {
        if outIdx == 0 {
          outFile := arg[1..];
        } else if outIdx == 1 {
          if arg[2..] == "&1" {
            errFile := outFile;
          } else {
            errFile := arg[2..];
          }
        }
        redir := true;
        return true;
      }
      var inIdx := BlockContains(arg, '<');
      if inIdx >= 0 {
        inFile := arg[1..];
        redir := true;
        return true;
      }
      return false;
    }

    method ParseEnvironVar(arg: string, ghost vars: map<string, string>) returns (taken: bool)
      requires '>' !in arg && '<' !in arg
      modifies this
      ensures taken <==> IndexOf(arg, '=') > 0 && IndexOf(arg, '-') < 0
      ensures taken ==> Value() == Feed(old(Value()), arg, vars)
      ensures !taken ==> Value() == old(Value())
    {
      var equals := BlockContains(arg, '=');
      if equals > 0 {
        var dash := BlockContains(arg, '-');
        if dash < 0 {
          eargv := eargv + [arg];
          return true;
        }
      }
      return false;
    }
  }

  method ParseExec(buf: array<char>, off: nat, vars: map<string, string>, ghost s: string) returns (cmd: Cmd)
    requires Has(buf[..], off, s)
    ensures cmd == ShellParse.ParseExec(s, vars) && cmd.Simple?
  {
    hide Has, Feed, Tokens, Before, AfterFirst, Expand;
    var c := new ExecRecord();
    var idx := 0;
    HasChar(buf[..], off, s, 0);
    HasRoom(buf[..], off, s);
    assert s[0..] == s;
    while buf[off + idx] != '\0'
      invariant idx <= |s| && fresh(c) && buf[..] == old(buf[..])
      invariant buf[off + idx] == if idx == |s| then '\0' else s[idx]
      invariant Tokens(c.Value(), s[idx..], vars) == Tokens(BLANK, s, vars)
      decreases |s| - idx
    {
      ghost var rest, before := s[idx..], c.Value();
      var tok := GetToken(buf, off, idx, s);
      NoZero(buf[..], off, s);
      TokenEnd(s, idx, tok);
      TokensStep(before, rest, vars);
      idx := idx + |tok|;
      HasChar(buf[..], off, s, idx);
      if buf[off + idx] != '\0' {
        idx := idx + 1;
        HasChar(buf[..], off, s, idx);
      }
      assert Tokens(Feed(before, tok, vars), s[idx..], vars) == Tokens(BLANK, s, vars);
      var redirected := c.ParseRedirFlow(tok, vars);
      if redirected { continue; }
      var setting := c.ParseEnvironVar(tok, vars);
      if setting { continue; }
      FeedArg(before, tok, vars);
      tok := Expand(tok, vars);
      if |tok| > 0 { c.argv := c.argv + [tok]; }
      assert c.Value() == Feed(before, Before(rest, SPACE), vars);
    }
    NoZero(buf[..], off, s);
    TokensEnd(c.Value(), vars);
    assert s[idx..] == "";
    return Simple(c.Value());
  }

  lemma NoZero(b: seq<char>, off: nat, s: string)
    requires Has(b, off, s)
    ensures '\0' !in s
  {
  }

  lemma TokensEnd(c: ExecCmd, vars: map<string, string>)
    ensures Tokens(c, "", vars) == c
  {
  }

  lemma FeedArg(c: ExecCmd, tok: string, vars: map<string, string>)
    requires '>' !in tok && '<' !in tok && !(IndexOf(tok, '=') > 0 && IndexOf(tok, '-') < 0)
    ensures Feed(c, tok, vars) == if Expand(tok, vars) == "" then c else c.(argv := c.argv + [Expand(tok, vars)])
  {
  }

  lemma TokenEnd(s: string, idx: nat, tok: string)
    requires idx < |s| && '\0' !in s && tok == Before(s[idx..], SPACE)
    ensures idx + |tok| <= |s| && (idx + |tok| < |s| ==> s[idx + |tok|] == SPACE)
    ensures AfterFirst(s[idx..], SPACE) == s[if idx + |tok| < |s| then idx + |tok| + 1 else |s|..]
  {
    var rest, k := s[idx..], IndexOf(s[idx..], SPACE);
    if k >= 0 { assert rest[k + 1..] == s[idx + k + 1..]; }
  }

  lemma TokensStep(c: ExecCmd, s: string, vars: map<string, string>)
    requires s != ""
    ensures Tokens(c, s, vars) == Tokens(Feed(c, Before(s, SPACE), vars), AfterFirst(s, SPACE), vars)
  {
  }

  method ParseCmd(buf: array<char>, off: nat, vars: map<string, string>, ghost s: string) returns (cmd: Cmd)
    requires Has(buf[..], off, s) && (off > 0 ==> buf[off - 1] != '>')
    modifies buf
    ensures cmd == ShellParse.ParseCmd(s, vars) && SameOutside(old(buf[..]), buf[..], off, off + |s|)
  {
    hide Has, Text, ShellParse.ParseExec;
    HasChar(buf[..], off, s, 0);
    HasRoom(buf[..], off, s);
    NoZero(buf[..], off, s);
    if buf[off] == '\0' { return Null; }
    var text := Text(buf[off..]);
    TextIs(buf[..], off, s);
    var idx := BlockContains(text, '&');
    if idx >= 0 {
      if idx > 0 { HasChar(buf[..], off, s, idx - 1); }
      if off + idx == 0 || buf[off + idx - 1] != '>' {
        cmd := ParseBack(buf, off, vars, s);
        return;
      }
    }
    cmd := ParseExec(buf, off, vars, s);
  }

  lemma TextIs(b: seq<char>, off: nat, s: string)
    requires Has(b, off, s)
    ensures Text(b[off..]) == s
  {
    assert b[off..][..|s|] == s;
    TextEnds(b[off..], s);
  }

  lemma {:induction false} TextEnds(b: seq<char>, s: string)
    requires s <= b && '\0' !in s && |s| < |b| && b[|s|] == '\0'
    ensures Text(b) == s
  {
    if s != "" {
      assert s[0] in s;
      TextEnds(b[1..], s[1..]);
    }
  }

  /** parse_back. */
  method ParseBack(buf: array<char>, off: nat, vars: map<string, string>, ghost s: string) returns (cmd: Cmd)
    requires Has(buf[..], off, s) && '&' in s
    modifies buf
    ensures cmd == Back(ShellParse.ParseExec(s[..IndexOf(s, '&')], vars))
    ensures SameOutside(old(buf[..]), buf[..], off, off + |s|)
  {
    ghost var b := buf[..];
    var i := 0;
    HasChar(b, off, s, 0);
    while buf[off + i] != '&'
      invariant i < |s| && '&' !in s[..i] && buf[..] == b && b[off + i] == s[i]
      decreases |s| - i
    {
      assert s[..i + 1] == s[..i] + [s[i]];
      i := i + 1;
      HasChar(b, off, s, i);
      assert s[..|s|] == s;
    }
    IndexAt(s, '&', i);
    buf[off + i] := '\0';
    assert buf[off..off + i] == s[..i] by { assert b[off..off + |s|][..i] == b[off..off + i]; }
    var e := ParseExec(buf, off, vars, s[..i]);
    return Back(e);
  }

  /** parse_line: the recursion ends because every bar that is passed is cut away. */
  method ParseLine(buf: array<char>, off: nat, vars: map<string, string>, ghost s: string) returns (cmd: Cmd)
    requires HasLine(buf[..], off, s) && (off > 0 ==> buf[off - 1] != '>')
    modifies buf
    ensures cmd == ShellParse.ParseLine(s, vars)
    decreases |s|
  {
    hide Has, HasLine, SameOutside, Before, AfterFirst, SkipSpaces, IndexOf, Text, ShellParse.ParseCmd,
         ShellParse.ParseLine;
    ghost var first, rest := Before(s, '|'), SkipSpaces(AfterFirst(s, '|'));
    ParseLineStep(s, vars);
    var right := SplitLine(buf, off, '|', s);
    ghost var b := buf[..];
    KeepsBefore(old(buf[..]), b, off, right);
    var l := ParseCmd(buf, off, vars, first);
    HasKept(b, buf[..], right, rest, off, off + |first|);
    KeptChar(b, buf[..], off, off + |first|, right - 1);
    TextIs(buf[..], right, rest);
    var bar := BlockContains(Text(buf[right..]), '|');
    var r;
    if bar > 0 {
      LineKept(b, buf[..], right, rest, off, off + |first|);
      r := ParseLine(buf, right, vars, rest);
    } else {
      r := ParseCmd(buf, right, vars, rest);
    }
    return PipeCreate(l, r);
  }

  lemma ParseLineStep(s: string, vars: map<string, string>)
    ensures var right := SkipSpaces(AfterFirst(s, '|'));
            ShellParse.ParseLine(s, vars) ==
            PipeCreate(ShellParse.ParseCmd(Before(s, '|'), vars),
                       if IndexOf(right, '|') > 0 then ShellParse.ParseLine(right, vars)
                       else ShellParse.ParseCmd(right, vars))
    ensures IndexOf(SkipSpaces(AfterFirst(s, '|')), '|') > 0 ==> '|' in s && |SkipSpaces(AfterFirst(s, '|'))| < |s|
  {
  }

  lemma KeepsBefore(a: seq<char>, b: seq<char>, lo: nat, hi: nat)
    requires SameOutside(a, b, lo, hi)
    ensures |a| == |b| && forall k :: 0 <= k < lo && k < |a| ==> a[k] == b[k]
  {
  }

  lemma KeptChar(a: seq<char>, b: seq<char>, lo: nat, hi: nat, k: nat)
    requires SameOutside(a, b, lo, hi) && hi <= k < |a|
    ensures |a| == |b| && a[k] == b[k]
  {
  }

  lemma LineKept(a: seq<char>, b: seq<char>, off: nat, s: string, lo: nat, hi: nat)
    requires HasLine(a, off, s) && SameOutside(a, b, lo, hi) && hi <= off
    ensures HasLine(b, off, s)
  {
    HasKept(a, b, off, s, lo, hi);
  }
}
