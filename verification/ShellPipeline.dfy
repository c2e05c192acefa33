/** From the commands of a pipeline to its text, back through the parser, and on to the descriptors that every
    command starts with. */
module ShellPipeline {
  import opened ShellCommand
  import opened ShellParse
  import opened ShellExec

  /** A piece of a command as a user means it. */
  datatype Item = Arg(w: string) | Setting(w: string) | In(f: string) | Out(f: string) | Err(f: string) | ErrToOut

  function Spell(item: Item): string {
    match item
    case Arg(w) => w
    case Setting(w) => w
    case In(f) => "<" + f
    case Out(f) => ">" + f
    case Err(f) => "2>" + f
    case ErrToOut => "2>&1"
  }

  function SpellAll(items: seq<Item>): (r: seq<string>)
    ensures |r| == |items| && forall i :: 0 <= i < |r| ==> r[i] == Spell(items[i])
  {
    if items == [] then [] else [Spell(items[0])] + SpellAll(items[1..])
  }

  /** Free of the characters that mean something to the parser. */
  predicate Word(w: string) { ' ' !in w && '|' !in w && '&' !in w && '<' !in w && '>' !in w && '\0' !in w }

  /** KEY=VALUE. */
  predicate IsSetting(w: string) { '-' !in w && exists i :: 0 < i < |w| && w[i] == '=' && '=' !in w[..i] }

  predicate ItemOk(item: Item) {
    match item
    case Arg(w) => Word(w) && w != "" && w[0] != '$' && !IsSetting(w)
    case Setting(w) => Word(w) && IsSetting(w)
    case In(f) => Word(f)
    case Out(f) => Word(f)
    case Err(f) => Word(f)
    case ErrToOut => true
  }

  predicate CommandOk(items: seq<Item>) { items != [] && forall x :: x in items ==> ItemOk(x) }

  // ---------------------------------------------------------------- what a command means

  function Args(items: seq<Item>): seq<string> {
    if items == [] then []
    else Args(items[..|items| - 1]) + (var x := items[|items| - 1]; if x.Arg? then [x.w] else [])
  }

  function Settings(items: seq<Item>): seq<string> {
    if items == [] then []
    else Settings(items[..|items| - 1]) + (var x := items[|items| - 1]; if x.Setting? then [x.w] else [])
  }

  /** The last file named for each stream; "2>&1" names what stdout had until then. */
  function InFile(items: seq<Item>): string {
    if items == [] then ""
    else var x := items[|items| - 1]; if x.In? then x.f else InFile(items[..|items| - 1])
  }

  function OutFile(items: seq<Item>): string {
    if items == [] then ""
    else var x := items[|items| - 1]; if x.Out? then x.f else OutFile(items[..|items| - 1])
  }

  function ErrFile(items: seq<Item>): string {
    if items == [] then ""
    else
      var x, before := items[|items| - 1], items[..|items| - 1];
      if x.Err? then x.f else if x.ErrToOut? then OutFile(before) else ErrFile(before)
  }

  predicate IsRedirect(x: Item) { x.In? || x.Out? || x.Err? || x.ErrToOut? }

  predicate Redirects(items: seq<Item>) { exists x :: x in items && IsRedirect(x) }

  function Meaning(items: seq<Item>): ExecCmd {
    ExecCmd(Args(items), Settings(items), InFile(items), OutFile(items), ErrFile(items), Redirects(items))
  }

  // ---------------------------------------------------------------- one command

  lemma {:induction false} IndexIs(s: string, c: char, i: nat)
    requires i < |s| && s[i] == c && c !in s[..i]
    ensures IndexOf(s, c) == i
  {
    var k := IndexOf(s, c);
    assert k >= 0;
    assert forall j :: 0 <= j < i ==> s[..i][j] == s[j];
    assert forall j :: 0 <= j < k ==> s[..k][j] == s[j];
  }

  lemma SettingIndex(w: string)
    ensures IsSetting(w) <==> '-' !in w && IndexOf(w, '=') > 0
  {
    if i :| 0 < i < |w| && w[i] == '=' && '=' !in w[..i] { IndexIs(w, '=', i); }
  }

  lemma FeedItem(c: ExecCmd, item: Item, vars: map<string, string>)
    requires ItemOk(item)
    ensures Feed(c, Spell(item), vars) ==
            match item
            case Arg(w) => c.(argv := c.argv + [w])
            case Setting(w) => c.(eargv := c.eargv + [w])
            case In(f) => c.(inFile := f, redir := true)
            case Out(f) => c.(outFile := f, redir := true)
            case Err(f) => c.(errFile := f, redir := true)
            case ErrToOut => c.(errFile := c.outFile, redir := true)
  {
    var tok := Spell(item);
    match item
    case Arg(w) => SettingIndex(w);
    case Setting(w) => SettingIndex(w);
    case In(f) =>
      IndexIs(tok, '<', 0);
      assert tok[1..] == f;
    case Out(f) =>
      IndexIs(tok, '>', 0);
      assert tok[1..] == f;
    case Err(f) =>
      IndexIs(tok, '>', 1);
      assert tok[2..] == f;
      assert f != "&1" by { assert "&1"[0] == '&'; }
    case ErrToOut =>
      IndexIs(tok, '>', 1);
      assert tok[2..] == "&1";
  }

  lemma MeaningSnoc(items: seq<Item>, x: Item, vars: map<string, string>)
    requires ItemOk(x)
    ensures Meaning(items + [x]) == Feed(Meaning(items), Spell(x), vars)
  {
    FeedItem(Meaning(items), x, vars);
    var all := items + [x];
    assert all[..|all| - 1] == items && all[|all| - 1] == x;
    assert Redirects(all) <==> Redirects(items) || IsRedirect(x) by {
      if y :| y in items && IsRedirect(y) { assert y in all; }
      if IsRedirect(x) { assert x in all; }
    }
    hide Feed, ItemOk;
  }

  lemma {:induction false} CollectSnoc(c: ExecCmd, words: seq<string>, w: string, vars: map<string, string>)
    ensures Collect(c, words + [w], vars) == Feed(Collect(c, words, vars), w, vars)
    decreases |words|
  {
    hide Feed;
    if words == [] {
      assert ([] + [w])[1..] == [];
    } else {
      CollectSnoc(Feed(c, words[0], vars), words[1..], w, vars);
      assert (words + [w])[1..] == words[1..] + [w];
    }
  }

  lemma MeaningNone()
    ensures Meaning([]) == BLANK
  {
  }

  /** The parser collects what the items mean. */
  lemma {:induction false} CollectItems(items: seq<Item>, vars: map<string, string>)
    requires forall x :: x in items ==> ItemOk(x)
    ensures Collect(BLANK, SpellAll(items), vars) == Meaning(items)
    decreases |items|
  {
    hide Feed, ItemOk, Spell, Meaning;
    if items == [] {
      MeaningNone();
    } else {
      var init, x := items[..|items| - 1], items[|items| - 1];
      assert x in items;
      CollectItems(init, vars);
      MeaningSnoc(init, x, vars);
      CollectSnoc(BLANK, SpellAll(init), Spell(x), vars);
      assert init + [x] == items;
      assert SpellAll(items) == SpellAll(init) + [Spell(x)];
    }
  }

  // ---------------------------------------------------------------- the text of a line

  function Blanks(n: nat): (s: string)
    ensures |s| == n && forall i :: 0 <= i < n ==> s[i] == ' '
  {
    if n == 0 then "" else " " + Blanks(n - 1)
  }

  /** Words with at least one space between them, gaps[i] extra ones before word i, the last gap at the end. */
  function SpaceOut(words: seq<string>, gaps: seq<nat>): string
    requires |gaps| == |words| + 1
  {
    if words == [] then Blanks(gaps[0])
    else Blanks(gaps[0]) + words[0] + (if |words| > 1 then " " else "") + SpaceOut(words[1..], gaps[1..])
  }

  lemma {:induction false} WordsBlanks(n: nat, s: string)
    ensures Words(Blanks(n) + s) == Words(s)
  {
    if n == 0 {
      assert Blanks(0) + s == s;
    } else {
      WordsBlanks(n - 1, s);
      var t := Blanks(n) + s;
      assert t == [' '] + (Blanks(n - 1) + s);
      IndexIs(t, ' ', 0);
      assert Before(t, ' ') == "" && AfterFirst(t, ' ') == Blanks(n - 1) + s;
    }
  }

  lemma WordsCons(w: string, s: string)
    requires w != "" && ' ' !in w
    ensures Words(w + " " + s) == [w] + Words(s)
  {
    var t := w + " " + s;
    assert t[..|w|] == w && t[|w|] == ' ' && t[|w| + 1..] == s;
    IndexIs(t, ' ', |w|);
  }

  lemma WordsLast(w: string, n: nat)
    requires w != "" && ' ' !in w
    ensures Words(w + Blanks(n)) == [w]
  {
    if n == 0 {
      assert w + Blanks(0) == w;
      assert Before(w, ' ') == w && AfterFirst(w, ' ') == "";
      assert Words(w) == [w] + Words("");
    } else {
      assert w + Blanks(n) == w + " " + Blanks(n - 1);
      WordsCons(w, Blanks(n - 1));
      WordsBlanks(n - 1, "");
      assert Blanks(n - 1) + "" == Blanks(n - 1);
    }
  }

  lemma {:induction false} WordsOfSpaceOut(words: seq<string>, gaps: seq<nat>)
    requires |gaps| == |words| + 1 && words != [] && forall w :: w in words ==> w != "" && ' ' !in w
    ensures Words(SpaceOut(words, gaps)) == words
  {
    hide Words;
    var w, rest := words[0], SpaceOut(words[1..], gaps[1..]);
    assert w in words;
    if |words| == 1 {
      assert SpaceOut(words, gaps) == Blanks(gaps[0]) + (w + rest) by {
        assert Blanks(gaps[0]) + w + "" + rest == Blanks(gaps[0]) + (w + rest);
      }
      WordsBlanks(gaps[0], w + rest);
      WordsLast(w, gaps[1]);
    } else {
      assert SpaceOut(words, gaps) == Blanks(gaps[0]) + (w + " " + rest) by {
        assert Blanks(gaps[0]) + w + " " + rest == Blanks(gaps[0]) + (w + " " + rest);
      }
      WordsBlanks(gaps[0], w + " " + rest);
      WordsCons(w, rest);
      assert forall v :: v in words[1..] ==> v in words;
      WordsOfSpaceOut(words[1..], gaps[1..]);
    }
  }

  function JoinBars(segments: seq<string>): string
    requires segments != []
  {
    if |segments| == 1 then segments[0] else segments[0] + "|" + JoinBars(segments[1..])
  }

  lemma {:induction false} SegmentsOfJoin(segments: seq<string>)
    requires segments != [] && forall seg :: seg in segments ==> '|' !in seg
    ensures Segments(JoinBars(segments)) == segments
  {
    var a := segments[0];
    assert a in segments;
    if |segments| > 1 {
      var s, rest := JoinBars(segments), JoinBars(segments[1..]);
      SegmentsOfJoin(segments[1..]);
      assert s[..|a|] == a && s[|a|] == '|' && s[|a| + 1..] == rest;
      IndexIs(s, '|', |a|);
    }
  }

  /** Every '&' follows a '>'. */
  predicate AmpsInRedirects(s: string) { forall i :: 0 <= i < |s| && s[i] == '&' ==> i > 0 && s[i - 1] == '>' }

  lemma AmpsParts(s: string)
    requires AmpsInRedirects(Before(s, ' ')) && AmpsInRedirects(AfterFirst(s, ' '))
    ensures AmpsInRedirects(s)
  {
    var w, rest, k := Before(s, ' '), AfterFirst(s, ' '), IndexOf(s, ' ');
    forall i | 0 <= i < |s| && s[i] == '&' ensures i > 0 && s[i - 1] == '>' {
      if k < 0 || i < k {
        assert w[i] == s[i];
      } else {
        assert rest[i - k - 1] == s[i];
      }
    }
  }

  lemma {:induction false} AmpsFromWords(s: string)
    requires forall w :: w in Words(s) ==> AmpsInRedirects(w)
    ensures AmpsInRedirects(s)
    decreases |s|
  {
    hide AmpsInRedirects, Before;
    if s == "" {
      NoAmps(s);
    } else {
      var w, rest := Before(s, ' '), AfterFirst(s, ' ');
      assert Words(s) == (if w == "" then [] else [w]) + Words(rest);
      if w == "" { NoAmps(w); } else { assert w in Words(s); }
      assert forall v :: v in Words(rest) ==> v in Words(s);
      AmpsFromWords(rest);
      AmpsParts(s);
    }
  }

  lemma NoAmps(s: string)
    requires s == ""
    ensures AmpsInRedirects(s)
  {
  }

  lemma SpelledWords(items: seq<Item>)
    requires CommandOk(items)
    ensures forall w :: w in SpellAll(items) ==> w != "" && ' ' !in w && '|' !in w && AmpsInRedirects(w)
  {
    forall i | 0 <= i < |items|
      ensures var w := SpellAll(items)[i]; w != "" && ' ' !in w && '|' !in w && AmpsInRedirects(w)
    {
      assert items[i] in items && ItemOk(items[i]);
      SpelledWord(items[i]);
    }
  }

  lemma SpelledWord(x: Item)
    requires ItemOk(x)
    ensures Spell(x) != "" && ' ' !in Spell(x) && '|' !in Spell(x) && AmpsInRedirects(Spell(x))
  {
    SettingIndex(Spell(x));
  }

  lemma {:induction false} NoBarInSpaceOut(words: seq<string>, gaps: seq<nat>)
    requires |gaps| == |words| + 1 && forall w :: w in words ==> '|' !in w
    ensures '|' !in SpaceOut(words, gaps)
  {
    if words != [] {
      assert words[0] in words;
      NoBarInSpaceOut(words[1..], gaps[1..]);
    }
  }

  /** One command in any spacing. */
  lemma CommandText(items: seq<Item>, gaps: seq<nat>, vars: map<string, string>)
    requires CommandOk(items) && |gaps| == |items| + 1
    ensures var s := SpaceOut(SpellAll(items), gaps);
            '|' !in s && IsCommand(s) && Meant(s, vars) == Simple(Meaning(items))
  {
    var s := SpaceOut(SpellAll(items), gaps);
    SpelledWords(items);
    WordsOfSpaceOut(SpellAll(items), gaps);
    NoBarInSpaceOut(SpellAll(items), gaps);
    AmpsFromWords(s);
    CollectItems(items, vars);
    hide Words, SpaceOut;
    assert SpellAll(items) != [];
  }

  // ---------------------------------------------------------------- round trip

  predicate LineOk(cmds: seq<seq<Item>>, gaps: seq<seq<nat>>) {
    && cmds != [] && |gaps| == |cmds|
    && forall i :: 0 <= i < |cmds| ==> CommandOk(cmds[i]) && |gaps[i]| == |cmds[i]| + 1
  }

  function Texts(cmds: seq<seq<Item>>, gaps: seq<seq<nat>>): seq<string>
    requires LineOk(cmds, gaps)
  {
    seq(|cmds|, i requires 0 <= i < |cmds| => SpaceOut(SpellAll(cmds[i]), gaps[i]))
  }

  /** The commands joined by bars; with a gap of one around every bar, by " | ". */
  function Line(cmds: seq<seq<Item>>, gaps: seq<seq<nat>>): string
    requires LineOk(cmds, gaps)
  {
    JoinBars(Texts(cmds, gaps))
  }

  function MeantStages(cmds: seq<seq<Item>>): seq<Cmd> {
    seq(|cmds|, i requires 0 <= i < |cmds| => Simple(Meaning(cmds[i])))
  }

  /** Parsing the text of any well formed commands, in any spacing, gives the right-nested pipeline of what they
      mean. */
  lemma RoundTrip(cmds: seq<seq<Item>>, gaps: seq<seq<nat>>, vars: map<string, string>)
    requires LineOk(cmds, gaps)
    ensures ParseLine(Line(cmds, gaps), vars) == Nest(MeantStages(cmds))
  {
    var texts := Texts(cmds, gaps);
    hide IsCommand, Meaning, SpaceOut, ParseLine, Meant, CommandOk;
    forall i | 0 <= i < |cmds|
      ensures '|' !in texts[i] && IsCommand(texts[i]) && Meant(texts[i], vars) == MeantStages(cmds)[i]
    {
      CommandText(cmds[i], gaps[i], vars);
    }
    SegmentsOfJoin(texts);
    ParseLineIs(Line(cmds, gaps), vars);
    assert MeantAll(texts, vars) == MeantStages(cmds);
  }

  // ---------------------------------------------------------------- from text to descriptors

  lemma {:induction false} NestStages(stages: seq<Cmd>)
    requires stages != [] && forall c :: c in stages ==> IsStage(c)
    ensures RightNested(Nest(stages)) && Stages(Nest(stages)) == stages
  {
    assert stages[0] in stages;
    if |stages| > 1 {
      NestStages(stages[1..]);
      assert stages == [stages[0]] + stages[1..];
    }
  }

  /** Running the text of a pipeline: command i starts with its own arguments, with input from command i - 1 and
      output to command i + 1 through private pipes, and its own redirections on top. */
  lemma RunsAsWritten(cmds: seq<seq<Item>>, gaps: seq<seq<nat>>, vars: map<string, string>, t: Table,
                      fails: set<string>, i: nat)
    requires LineOk(cmds, gaps) && Standard(t) && i < |cmds|
    ensures RightNested(ParseLine(Line(cmds, gaps), vars))
    ensures var outcomes := Run(ParseLine(Line(cmds, gaps), vars), t, 0, fails).0;
            var w := Wired(t, i, |cmds| - 1, 0); var c := Meaning(cmds[i]);
            |outcomes| == |cmds| && Standard(w) &&
            outcomes[i] == if !c.redir then Started(Args(cmds[i]), w)
                           else match AllRedirected(w, c, fails)
                                case None => Failed
                                case Some(u) => Started(Args(cmds[i]), u)
  {
    var stages := MeantStages(cmds);
    RoundTrip(cmds, gaps, vars);
    NestStages(stages);
    Wiring(Nest(stages), t, 0, fails);
    hide Run, AllRedirected, Wired, ParseLine, Line, Nest, Stages;
    assert StageWired(Run(Nest(stages), t, 0, fails).0[i], stages[i], Wired(t, i, |stages| - 1, 0), fails);
  }
}
