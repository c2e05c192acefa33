/** exec_cmd over descriptor tables: what every command of a pipeline has open when it starts. */
module ShellExec {
  import opened ShellCommand

  /** What a descriptor refers to. */
  datatype End =
    | Inherited(name: int)
    | ReadEnd(pipe: nat)
    | WriteEnd(pipe: nat)
    | ReadFile(file: string)
    | WriteFile(file: string)  // opened with O_CREAT | O_WRONLY | O_TRUNC

  type Table = map<nat, End>

  const STDIN := 0
  const STDOUT := 1
  const STDERR := 2

  /** How a command process comes to its execvp, or to its exit. */
  datatype Outcome = Started(argv: seq<string>, fds: Table) | Failed

  // ---------------------------------------------------------------- the system calls

  /** The lowest descriptor from `k` on that is not open. */
  function Lowest(open: set<nat>, k: nat): (fd: nat)
    ensures fd >= k && fd !in open && forall i :: k <= i < fd ==> i in open
    decreases |open|
  {
    if k in open then
      assert |open - {k}| < |open|;
      var low := Lowest(open - {k}, k + 1);
      assert forall i | k <= i < low :: i in open by {
        forall i | k <= i < low ensures i in open { assert i == k || i in open - {k}; }
      }
      low
    else k
  }

  function Close(t: Table, fd: nat): Table { t - {fd} }

  function Dup2(t: Table, from: nat, to: nat): Table
    requires from in t
  {
    t[to := t[from]]
  }

  /** Standard input, output and error are open. */
  predicate Standard(t: Table) { STDIN in t && STDOUT in t && STDERR in t }

  // ---------------------------------------------------------------- one command

  /** redirect_fd: None when the file cannot be opened. */
  datatype Option = None | Some(t: Table)

  function RedirectFd(t: Table, end: End, to: nat, fails: set<string>): Option
    requires end.ReadFile? || end.WriteFile?
  {
    if end.file in fails then None
    else
      var fd := Lowest(t.Keys, 0);
      var held := t[fd := end];
      Some(Close(Dup2(held, fd, to), fd))
  }

  /** The three redirections of a REDIR command, in order. */
  function AllRedirected(t: Table, c: ExecCmd, fails: set<string>): Option
    requires Standard(t)
  {
    var a := if c.inFile != "" then RedirectFd(t, ReadFile(c.inFile), STDIN, fails) else Some(t);
    if a.None? then None
    else
      var b := if c.outFile != "" then RedirectFd(a.t, WriteFile(c.outFile), STDOUT, fails) else a;
      if b.None? then None
      else if c.errFile == c.outFile then (if STDOUT in b.t then Some(Dup2(b.t, STDOUT, STDERR)) else b)
      else if c.errFile != "" then RedirectFd(b.t, WriteFile(c.errFile), STDERR, fails)
      else b
  }

  function RunStage(cmd: Cmd, t: Table, fails: set<string>): Outcome
    requires IsStage(cmd) && Standard(t)
  {
    var c := if cmd.Simple? then cmd.c else cmd.b.c;
    if !c.redir then Started(c.argv, t)
    else
      match AllRedirected(t, c, fails)
      case None => Failed
      case Some(u) => Started(c.argv, u)
  }

  // ---------------------------------------------------------------- a pipeline

  /** The tables of the two children and of the waiting parent around pipe `n`. */
  function WithPipe(t: Table, n: nat): Table {
    var r := Lowest(t.Keys, 0);
    var w := Lowest(t.Keys + {r}, 0);
    t[r := ReadEnd(n)][w := WriteEnd(n)]
  }

  function LeftChild(t: Table, n: nat): Table {
    var r := Lowest(t.Keys, 0);
    var w := Lowest(t.Keys + {r}, 0);
    Close(Dup2(Close(WithPipe(t, n), r), w, STDOUT), w)
  }

  function ParentTable(t: Table, n: nat): Table {
    var r := Lowest(t.Keys, 0);
    var w := Lowest(t.Keys + {r}, 0);
    Close(WithPipe(t, n), w)
  }

  function RightChild(t: Table, n: nat): Table {
    var r := Lowest(t.Keys, 0);
    var u := ParentTable(t, n);
    if r in u then Close(Dup2(u, r, STDIN), r) else u
  }

  function Waiter(t: Table, n: nat): Table { Close(ParentTable(t, n), Lowest(t.Keys, 0)) }

  /** Stages hang to the left of pipes, as the parser makes them. */
  predicate RightNested(cmd: Cmd) {
    IsStage(cmd) || (cmd.Pipe? && IsStage(cmd.left) && RightNested(cmd.right))
  }

  function Stages(cmd: Cmd): seq<Cmd>
    requires RightNested(cmd)
  {
    if cmd.Pipe? then [cmd.left] + Stages(cmd.right) else [cmd]
  }

  /** Adding one descriptor and taking it away, or moving it below, leaves a standard table with the same
      descriptors open. */
  lemma PipeTables(t: Table, n: nat)
    requires Standard(t)
    ensures LeftChild(t, n) == t[STDOUT := WriteEnd(n)]
    ensures RightChild(t, n) == t[STDIN := ReadEnd(n)]
    ensures Waiter(t, n) == t
  {
  }

  /** exec_cmd in a process with table `t`, pipes numbered from `n`: the commands it starts, from left to right,
      and the tables of the processes left waiting. */
  function Run(cmd: Cmd, t: Table, n: nat, fails: set<string>): (seq<Outcome>, seq<Table>)
    requires RightNested(cmd) && Standard(t)
    decreases cmd
  {
    if !cmd.Pipe? then ([RunStage(cmd, t, fails)], [])
    else
      PipeTables(t, n);
      var first := RunStage(cmd.left, LeftChild(t, n), fails);
      var (rest, waiting) := Run(cmd.right, RightChild(t, n), n + 1, fails);
      ([first] + rest, [Waiter(t, n)] + waiting)
  }

  lemma Regroup<T>(a: seq<T>, b: seq<T>, c: seq<T>)
    ensures a + b + c == a + (b + c)
  {
  }

  lemma RunSingle(cmd: Cmd, t: Table, n: nat, fails: set<string>)
    requires IsStage(cmd) && Standard(t)
    ensures Run(cmd, t, n, fails) == ([RunStage(cmd, t, fails)], [])
  {
  }

  lemma RunPipe(cmd: Cmd, t: Table, n: nat, fails: set<string>)
    requires RightNested(cmd) && Standard(t) && cmd.Pipe?
    ensures Standard(LeftChild(t, n)) && Standard(RightChild(t, n))
    ensures var rest := Run(cmd.right, RightChild(t, n), n + 1, fails);
            Run(cmd, t, n, fails) ==
            ([RunStage(cmd.left, LeftChild(t, n), fails)] + rest.0, [Waiter(t, n)] + rest.1)
  {
    PipeTables(t, n);
  }

  /** The two ends are open in the parent until it closes them. */
  lemma PipeEnds(t: Table, n: nat)
    ensures var r := Lowest(t.Keys, 0); var w := Lowest(t.Keys + {r}, 0);
            r != w && w in WithPipe(t, n) && r in ParentTable(t, n)
  {
  }

  // ---------------------------------------------------------------- wiring

  /** What stage `i` of `last` + 1 starts with, before its own redirections. */
  function Wired(t: Table, i: nat, last: nat, n: nat): Table
    requires Standard(t)
  {
    var u := if i == 0 then t else t[STDIN := ReadEnd(n + i - 1)];
    if i == last then u else u[STDOUT := WriteEnd(n + i)]
  }

  /** The tables that stages and waiting processes get. */
  ghost predicate IsWired(outcomes: seq<Outcome>, waiting: seq<Table>, stages: seq<Cmd>, t: Table, n: nat,
                          fails: set<string>)
    requires Standard(t)
  {
    && |outcomes| == |stages| == |waiting| + 1
    && (forall i :: 0 <= i < |stages| ==> StageWired(outcomes[i], stages[i], Wired(t, i, |stages| - 1, n), fails))
    && (forall j :: 0 <= j < |waiting| ==> waiting[j] == if j == 0 then t else t[STDIN := ReadEnd(n + j - 1)])
  }

  predicate StageWired(outcome: Outcome, stage: Cmd, t: Table, fails: set<string>) {
    IsStage(stage) && Standard(t) && outcome == RunStage(stage, t, fails)
  }

  lemma WiredShift(t: Table, i: nat, k: nat, n: nat)
    requires Standard(t) && 0 < i <= k
    ensures Wired(t, i, k, n) == Wired(t[STDIN := ReadEnd(n)], i - 1, k - 1, n + 1)
  {
    assert i == 1 ==> n + i - 1 == n;
    assert i > 1 ==> t[STDIN := ReadEnd(n)][STDIN := ReadEnd(n + i - 1)] == t[STDIN := ReadEnd(n + i - 1)];
  }

  lemma OneMore(first: Outcome, rest: seq<Outcome>, waiting: seq<Table>, stage: Cmd, stages: seq<Cmd>, t: Table, n: nat,
                fails: set<string>)
    requires Standard(t) && IsWired(rest, waiting, stages, t[STDIN := ReadEnd(n)], n + 1, fails)
    requires StageWired(first, stage, t[STDOUT := WriteEnd(n)], fails)
    ensures IsWired([first] + rest, [t] + waiting, [stage] + stages, t, n, fails)
  {
    var u, k := t[STDIN := ReadEnd(n)], |stages|;
    hide Wired, StageWired, RunStage;
    forall i | 0 <= i <= k
      ensures StageWired(([first] + rest)[i], ([stage] + stages)[i], Wired(t, i, k, n), fails)
    {
      if i > 0 { WiredShift(t, i, k, n); } else { WiredFirst(t, k, n); }
    }
    forall j | 0 < j <= |waiting| ensures ([t] + waiting)[j] == t[STDIN := ReadEnd(n + j - 1)] {
      assert j > 1 ==> u[STDIN := ReadEnd(n + j - 1)] == t[STDIN := ReadEnd(n + j - 1)];
    }
  }

  lemma WiredFirst(t: Table, k: nat, n: nat)
    requires Standard(t) && k > 0
    ensures Wired(t, 0, k, n) == t[STDOUT := WriteEnd(n)]
  {
  }

  /** Every stage starts with the descriptors of the shell; only its standard input and output may differ: stage i
      writes pipe i and stage i + 1 reads it, the first stage keeps the shell's input, the last one its output. */
  lemma {:induction false} Wiring(cmd: Cmd, t: Table, n: nat, fails: set<string>)
    requires RightNested(cmd) && Standard(t)
    ensures IsWired(Run(cmd, t, n, fails).0, Run(cmd, t, n, fails).1, Stages(cmd), t, n, fails)
    decreases cmd
  {
    hide IsWired, RunStage, LeftChild, RightChild, Waiter;
    if cmd.Pipe? {
      PipeTables(t, n);
      Wiring(cmd.right, t[STDIN := ReadEnd(n)], n + 1, fails);
      var (rest, waiting) := Run(cmd.right, t[STDIN := ReadEnd(n)], n + 1, fails);
      var first := RunStage(cmd.left, t[STDOUT := WriteEnd(n)], fails);
      OneMore(first, rest, waiting, cmd.left, Stages(cmd.right), t, n, fails);
    } else {
      SingleWired(cmd, t, n, fails);
    }
  }

  lemma SingleWired(cmd: Cmd, t: Table, n: nat, fails: set<string>)
    requires IsStage(cmd) && Standard(t)
    ensures IsWired([RunStage(cmd, t, fails)], [], [cmd], t, n, fails)
  {
    assert Wired(t, 0, 0, n) == t;
  }

  /** Private pipes: among all the processes of the pipeline, the write end of pipe i is open in stage i alone, and
      its read end in stage i + 1 and the process that waits for that stage. */
  lemma PrivatePipes(cmd: Cmd, t: Table, n: nat, fails: set<string>, i: nat, k: nat, fd: nat)
    requires RightNested(cmd) && Standard(t) && i + 1 < |Stages(cmd)|
    requires forall f, m: nat :: f in t && m >= n ==> t[f] != ReadEnd(m) && t[f] != WriteEnd(m)
    ensures var last := |Stages(cmd)| - 1;
            k <= last ==>
              (fd in Wired(t, k, last, n) && Wired(t, k, last, n)[fd] == WriteEnd(n + i) <==> k == i && fd == STDOUT) &&
              (fd in Wired(t, k, last, n) && Wired(t, k, last, n)[fd] == ReadEnd(n + i) <==> k == i + 1 && fd == STDIN)
    ensures var waiting := Run(cmd, t, n, fails).1;
            k < |waiting| && fd in waiting[k] ==>
              waiting[k][fd] != WriteEnd(n + i) && (waiting[k][fd] == ReadEnd(n + i) <==> k == i + 1 && fd == STDIN)
  {
    hide Run, Stages;
    Wiring(cmd, t, n, fails);
  }

  /** Started from descriptors 0, 1 and 2, every stage has exactly those. */
  lemma ExactlyThree(cmd: Cmd, t: Table, n: nat, fails: set<string>, i: nat)
    requires RightNested(cmd) && t.Keys == {STDIN, STDOUT, STDERR} && i < |Stages(cmd)|
    ensures var outcomes := Run(cmd, t, n, fails).0;
            |outcomes| == |Stages(cmd)| && (outcomes[i].Started? ==> outcomes[i].fds.Keys == {STDIN, STDOUT, STDERR})
  {
    Wiring(cmd, t, n, fails);
    var s, w := Stages(cmd)[i], Wired(t, i, |Stages(cmd)| - 1, n);
    assert w.Keys == t.Keys;
    RedirectIs(w, if s.Simple? then s.c else s.b.c, fails);
  }

  // ---------------------------------------------------------------- redirections

  lemma RedirectFdIs(t: Table, end: End, to: nat, fails: set<string>)
    requires Standard(t) && to <= STDERR && (end.ReadFile? || end.WriteFile?)
    ensures RedirectFd(t, end, to, fails) == if end.file in fails then None else Some(t[to := end])
  {
  }

  /** A redirection changes only its own stream, and stderr; it fails exactly when a file cannot be opened. */
  lemma RedirectIs(t: Table, c: ExecCmd, fails: set<string>)
    requires Standard(t)
    ensures var bad := (c.inFile != "" && c.inFile in fails) || (c.outFile != "" && c.outFile in fails) ||
                       (c.errFile != "" && c.errFile != c.outFile && c.errFile in fails);
            var in1 := if c.inFile != "" then ReadFile(c.inFile) else t[STDIN];
            var out1 := if c.outFile != "" then WriteFile(c.outFile) else t[STDOUT];
            var err1 := if c.errFile == c.outFile then out1
                        else if c.errFile != "" then WriteFile(c.errFile) else t[STDERR];
            AllRedirected(t, c, fails) == if bad then None else Some(t[STDIN := in1][STDOUT := out1][STDERR := err1])
  {
    RedirectFdIs(t, ReadFile(c.inFile), STDIN, fails);
    var a := if c.inFile != "" then t[STDIN := ReadFile(c.inFile)] else t;
    RedirectFdIs(a, WriteFile(c.outFile), STDOUT, fails);
    var b := if c.outFile != "" then a[STDOUT := WriteFile(c.outFile)] else a;
    RedirectFdIs(b, WriteFile(c.errFile), STDERR, fails);
    hide RedirectFd;
    assert t == t[STDIN := t[STDIN]][STDOUT := t[STDOUT]][STDERR := t[STDERR]];
  }

  /** stderr stays where it was exactly when only stdout is redirected; with neither of the two named, as in
      "cmd < file", it follows stdout. */
  lemma StderrKeptIff(t: Table, c: ExecCmd)
    requires Standard(t) && t[STDERR] != t[STDOUT] && !t[STDERR].WriteFile?
    ensures AllRedirected(t, c, {}).Some? && STDERR in AllRedirected(t, c, {}).t
    ensures AllRedirected(t, c, {}).t[STDERR] == t[STDERR] <==> c.errFile == "" && c.outFile != ""
  {
    RedirectIs(t, c, {});
  }

  /** In "sort < list | wc" the error messages of sort go down the pipe. */
  lemma ErrorsIntoPipe()
    ensures var t := map[STDIN := Inherited(0), STDOUT := WriteEnd(0), STDERR := Inherited(2)];
            AllRedirected(t, ExecCmd(["sort"], [], "list", "", "", true), {}) ==
            Some(map[STDIN := ReadFile("list"), STDOUT := WriteEnd(0), STDERR := WriteEnd(0)])
  {
    var t := map[STDIN := Inherited(0), STDOUT := WriteEnd(0), STDERR := Inherited(2)];
    hide AllRedirected;
    RedirectIs(t, ExecCmd(["sort"], [], "list", "", "", true), {});
  }

  // ---------------------------------------------------------------- exec.c

  /** A process: its descriptor table, changed by its system calls. */
  class Process {
    var fds: Table

    /** fork: a copy of the table. */
    constructor (fds: Table)
      ensures this.fds == fds
    {
      this.fds := fds;
    }

    method CloseFd(fd: nat)
      modifies this
      ensures fds == Close(old(fds), fd)
    {
      fds := fds - {fd};
    }

    method DupTo(from: nat, to: nat)
      requires from in fds
      modifies this
      ensures fds == Dup2(old(fds), from, to)
    {
      fds := fds[to := fds[from]];
    }

    method OpenPipe(n: nat) returns (r: nat, w: nat)
      modifies this
      ensures r == Lowest(old(fds).Keys, 0) && w == Lowest(old(fds).Keys + {r}, 0) && fds == WithPipe(old(fds), n)
    {
      r := Lowest(fds.Keys, 0);
      fds := fds[r := ReadEnd(n)];
      assert fds.Keys == old(fds).Keys + {r};
      w := Lowest(fds.Keys, 0);
      fds := fds[w := WriteEnd(n)];
    }

    /** redirect_fd; false where it exits. */
    method Redirect(end: End, to: nat, fails: set<string>) returns (ok: bool)
      requires end.ReadFile? || end.WriteFile?
      modifies this
      ensures RedirectFd(old(fds), end, to, fails) == if ok then Some(fds) else None
    {
      if end.file in fails { return false; }
      var fd := Lowest(fds.Keys, 0);
      fds := fds[fd := end];
      DupTo(fd, to);
      CloseFd(fd);
      return true;
    }
  }

  /** What happens while a command line runs: the pipes made so far, the commands started, the processes that
      wait. */
  class Session {
    const fails: set<string>
    var pipes: nat
    var outcomes: seq<Outcome>
    var waiting: seq<Table>

    constructor (fails: set<string>)
      ensures this.fails == fails && pipes == 0 && outcomes == [] && waiting == []
    {
      this.fails, pipes, outcomes, waiting := fails, 0, [], [];
    }

    /** The REDIR case; false where the process exits. */
    method RedirectAll(p: Process, c: ExecCmd) returns (ok: bool)
      requires Standard(p.fds)
      modifies p
      ensures AllRedirected(old(p.fds), c, fails) == if ok then Some(p.fds) else None
    {
      if |c.inFile| > 0 {
        ok := p.Redirect(ReadFile(c.inFile), STDIN, fails);
        if !ok { return; }
      }
      if |c.outFile| > 0 {
        ok := p.Redirect(WriteFile(c.outFile), STDOUT, fails);
        if !ok { return; }
      }
      if c.errFile == c.outFile {
        if STDOUT in p.fds { p.DupTo(STDOUT, STDERR); }
      } else if |c.errFile| > 0 {
        ok := p.Redirect(WriteFile(c.errFile), STDERR, fails);
        return;
      }
      return true;
    }

    /** The EXEC, REDIR and BACK cases. */
    method ExecStage(p: Process, cmd: Cmd)
      requires IsStage(cmd) && Standard(p.fds)
      modifies this`outcomes, p
      ensures outcomes == old(outcomes) + [RunStage(cmd, old(p.fds), fails)]
    {
      var c := if cmd.Simple? then cmd.c else cmd.b.c;
      if c.redir {
        var ok := RedirectAll(p, c);
        if !ok {
          outcomes := outcomes + [Failed];
          return;
        }
      }
      outcomes := outcomes + [Started(c.argv, p.fds)];
    }

    /** exec_cmd. */
    method ExecCmd(p: Process, cmd: Cmd)
      requires RightNested(cmd) && Standard(p.fds)
      modifies this, p
      ensures outcomes == old(outcomes) + Run(cmd, old(p.fds), old(pipes), fails).0
      ensures waiting == old(waiting) + Run(cmd, old(p.fds), old(pipes), fails).1
      decreases cmd
    {
      hide Run, RunStage, LeftChild, RightChild, Waiter, Standard, WithPipe, Close, Dup2;
      if !cmd.Pipe? {
        RunSingle(cmd, p.fds, pipes, fails);
        ExecStage(p, cmd);
        return;
      }
      ghost var t, n, oldOutcomes, oldWaiting := p.fds, pipes, outcomes, waiting;
      RunPipe(cmd, t, n, fails);
      var child1, child2 := ForkAround(p, pipes);
      pipes := pipes + 1;
      waiting := waiting + [p.fds];
      ExecStage(child1, cmd.left);
      ExecCmd(child2, cmd.right);
      ghost var rest := Run(cmd.right, RightChild(t, n), n + 1, fails);
      Regroup(oldOutcomes, [RunStage(cmd.left, LeftChild(t, n), fails)], rest.0);
      Regroup(oldWaiting, [Waiter(t, n)], rest.1);
    }

    /** The PIPE case up to the two commands and the waits: the children work on copies of the table, so what they
        do meanwhile does not show in the parent. */
    method ForkAround(p: Process, n: nat) returns (child1: Process, child2: Process)
      modifies p
      ensures fresh(child1) && fresh(child2) && child1 != child2
      ensures child1.fds == LeftChild(old(p.fds), n) && child2.fds == RightChild(old(p.fds), n)
      ensures p.fds == Waiter(old(p.fds), n)
    {
      ghost var t := p.fds;
      PipeEnds(t, n);
      hide Lowest, WithPipe;
      var r, w := p.OpenPipe(n);
      child1 := ForkWriter(p, r, w);
      p.CloseFd(w);
      child2 := ForkReader(p, r);
      p.CloseFd(r);
    }

    /** The first child up to its command. */
    method ForkWriter(p: Process, r: nat, w: nat) returns (child: Process)
      requires w in p.fds && w != r
      ensures fresh(child) && child.fds == Close(Dup2(Close(p.fds, r), w, STDOUT), w)
    {
      child := new Process(p.fds);
      child.CloseFd(r);
      child.DupTo(w, STDOUT);
      child.CloseFd(w);
    }

    /** The second child up to its command. */
    method ForkReader(p: Process, r: nat) returns (child: Process)
      requires r in p.fds
      ensures fresh(child) && child.fds == Close(Dup2(p.fds, r, STDIN), r)
    {
      child := new Process(p.fds);
      child.DupTo(r, STDIN);
      child.CloseFd(r);
    }
  }
}
