/** The commands that the shell's parser builds and its executor runs. */
module ShellCommand {

  /** execcmd; `redir` is the type REDIR. */
  datatype ExecCmd = ExecCmd(argv: seq<string>, eargv: seq<string>, inFile: string, outFile: string, errFile: string,
                             redir: bool)

  /** struct cmd and NULL. */
  datatype Cmd =
    | Null
    | Simple(c: ExecCmd)
    | Back(b: Cmd)
    | Pipe(left: Cmd, right: Cmd)

  /** pipe_cmd_create. */
  function PipeCreate(left: Cmd, right: Cmd): Cmd { if right == Null then left else Pipe(left, right) }

  /** One command of a pipeline. */
  predicate IsStage(c: Cmd) { c.Simple? || (c.Back? && c.b.Simple?) }

  /** The right-nested pipeline of some stages. */
  function Nest(stages: seq<Cmd>): Cmd
    requires stages != []
  {
    if |stages| == 1 then stages[0] else Pipe(stages[0], Nest(stages[1..]))
  }
}
