/**
 * What the commands of the in-session scripts do to the session's files, one atomic step at a time.
 * Every step consumes one choice of the environment; a script that runs out of choices has been
 * killed there, so quantifying over choice sequences covers a kill after any step, any fault of any
 * command, and every way a file can grow while it is written.
 */
module ShellMachine {
  import opened Common

  datatype Prog =
    | MkdirP(dir: string)
    | CatTo(dst: string)                              // cat > dst
    | SizeIs(file: string, size: nat)                 // [ "$(wc -c < file)" -eq size ]
    | Mv(src: string, dst: string)                    // mv -f src dst
    | Base64To(src: string, dst: string)              // base64 -d src > dst
    | RmF(file: string)
    | Cd(dir: string)
    | Interpret(seconds: nat, interpreter: string, file: string)
    | Head(count: nat, file: string)                  // head -c count file
    | False
    | SaveStatus                                      // rc=$?
    | ExitSaved                                       // exit $rc
    | And(left: Prog, right: Prog)
    | Or(left: Prog, right: Prog)
    | Seq(left: Prog, right: Prog)
    | Group(body: Prog)
  {
    predicate IsComposite() {
      And? || Or? || Seq? || Group?
    }
  }

  type Files = map<string, seq<byte>>

  type FailureCode = n: nat | 0 < n witness 1

  /** One run of an interpreter: the file it was given, as it was then, how it was started and in which
      directory, and the exit code it ended with, if it did. */
  datatype Run = Run(script: Option<seq<byte>>, interpreter: string, seconds: nat, dir: string, code: Option<nat>)

  datatype State = State(fs: Files, stdin: seq<byte>, status: nat, rc: nat, exited: bool,
                         runs: seq<Run>, stdout: seq<byte>, dir: string)

  datatype Choice =
    | Go                                  // the command does its work
    | Fault(code: FailureCode)            // it fails at this step
    | Write(n: nat)                       // a copying command writes up to n more bytes
    | Touch(fs: Files)                    // the interpreted program leaves these files, and goes on
    | Program(fs: Files, exit: nat)       // it ends, leaving these files

  datatype Outcome = Killed(st: State) | Finished(st: State, rest: seq<Choice>)

  /**
   * What the utilities themselves decide: all that `base64 -d` prints for an input, and whether it
   * accepts it; how `mkdir -p` ends, and how `head -c` ends and what it prints, when the only operand
   * is an option. `--help` ends both with 0, and `-q` has `head` read its empty input, for example.
   */
  datatype Tools = Tools(decode: seq<byte> -> (seq<byte>, bool), mkdirOption: string -> nat,
                         headOption: (nat, string) -> (nat, seq<byte>))

  /** An operand that a utility takes for an option: it then looks at no file. A lone hyphen is none. */
  predicate OptionLike(operand: string) {
    |operand| >= 2 && operand[0] == '-'
  }

  function CodeOf(c: Choice): nat {
    if c.Fault? then c.code else 0
  }

  function Exec(p: Prog, st: State, env: seq<Choice>, tools: Tools): Outcome {
    match p
    case And(l, r) =>
      (match Exec(l, st, env, tools)
       case Killed(s) => Killed(s)
       case Finished(s, e) => if s.exited || s.status != 0 then Finished(s, e) else Exec(r, s, e, tools))
    case Or(l, r) =>
      (match Exec(l, st, env, tools)
       case Killed(s) => Killed(s)
       case Finished(s, e) => if s.exited || s.status == 0 then Finished(s, e) else Exec(r, s, e, tools))
    case Seq(l, r) =>
      (match Exec(l, st, env, tools)
       case Killed(s) => Killed(s)
       case Finished(s, e) => if s.exited then Finished(s, e) else Exec(r, s, e, tools))
    case Group(b) => Exec(b, st, env, tools)
    case _ => Utility(p, st, env, tools)
  }

  function Utility(p: Prog, st: State, env: seq<Choice>, tools: Tools): Outcome
    requires !p.IsComposite()
  {
    if env == [] then Killed(st)
    else
      var c, rest := env[0], env[1..];
      match p
      case MkdirP(dir) =>
        Finished(st.(status := if c.Fault? || !OptionLike(dir) then CodeOf(c) else tools.mkdirOption(dir)), rest)
      case Cd(dir) => Finished(st.(status := CodeOf(c), dir := if c.Fault? then st.dir else dir), rest)
      case CatTo(dst) =>
        if c.Fault? then Finished(st.(status := c.code), rest)
        else Copy(dst, st.stdin, 0, st.(fs := st.fs[dst := []], stdin := []), rest)
      case Base64To(src, dst) =>
        if c.Fault? then Finished(st.(status := c.code), rest)
        else
          var truncated := st.(fs := st.fs[dst := []]);
          if OptionLike(src) || src !in truncated.fs then Finished(truncated.(status := 1), rest)
          else
            var (out, ok) := tools.decode(truncated.fs[src]);
            Copy(dst, out, if ok then 0 else 1, truncated, rest)
      case SizeIs(file, size) =>
        var code := if c.Fault? then c.code else if file !in st.fs then 2 else if |st.fs[file]| == size then 0 else 1;
        Finished(st.(status := code), rest)
      case Mv(src, dst) =>
        if c.Fault? then Finished(st.(status := c.code), rest)
        else if OptionLike(src) || OptionLike(dst) || src !in st.fs then Finished(st.(status := 1), rest)
        else Finished(st.(fs := (st.fs - {src})[dst := st.fs[src]], status := 0), rest)
      case RmF(file) =>
        if OptionLike(file) then Finished(st.(status := CodeOf(c)), rest)
        else Finished(st.(fs := st.fs - {file}, status := 0), rest)
      case Interpret(seconds, interpreter, file) =>
        if c.Fault? then Finished(st.(status := c.code), rest)
        else
          var script := if file in st.fs then Some(st.fs[file]) else None;
          Running(st.(runs := st.runs + [Run(script, interpreter, seconds, st.dir, None)]), rest)
      case Head(count, file) =>
        if c.Fault? then Finished(st.(status := c.code), rest)
        else if file == "-" then Finished(st.(stdout := st.stdout + Take(st.stdin, count), status := 0), rest)
        else if OptionLike(file) then
          var (code, out) := tools.headOption(count, file);
          Finished(st.(stdout := st.stdout + out, status := code), rest)
        else if file !in st.fs then Finished(st.(status := 1), rest)
        else Finished(st.(stdout := st.stdout + Take(st.fs[file], count), status := 0), rest)
      case False => Finished(st.(status := 1), rest)
      case SaveStatus => Finished(st.(rc := st.status, status := 0), rest)
      case ExitSaved => Finished(st.(exited := true, status := st.rc), rest)
  }

  function Ended(st: State, exit: nat): State
    requires st.runs != []
  {
    var last := |st.runs| - 1;
    st.(status := exit, runs := st.runs[last := st.runs[last].(code := Some(exit))])
  }

  /** The last run in `st` going on: it may change any file at any step, and end with any code, its time
      limit's included. */
  function Running(st: State, env: seq<Choice>): Outcome
    requires st.runs != []
    decreases |env|
  {
    if env == [] then Killed(st)
    else
      match env[0]
      case Touch(fs) => Running(st.(fs := fs), env[1..])
      case Program(fs, exit) => Finished(Ended(st.(fs := fs), exit), env[1..])
      case Fault(failure) => Finished(Ended(st, failure), env[1..])
      case _ => Finished(Ended(st, 0), env[1..])
  }

  /** A command writing `todo` to its redirected output, already opened and truncated. */
  function Copy(dst: string, todo: seq<byte>, code: nat, st: State, env: seq<Choice>): Outcome
    requires dst in st.fs
    decreases |env|
  {
    if env == [] then Killed(st)
    else
      match env[0]
      case Fault(failure) => Finished(st.(status := failure), env[1..])
      case Write(n) =>
        var part := Take(todo, n);
        Copy(dst, todo[|part|..], code, st.(fs := st.fs[dst := st.fs[dst] + part]), env[1..])
      case _ => Finished(st.(fs := st.fs[dst := st.fs[dst] + todo], status := code), env[1..])
  }

  /** Copying changes nothing but its destination, which is always a prefix of the whole output and,
      when the command ends with its own exit code 0, all of it. */
  lemma {:induction false} CopyWrites(dst: string, done: seq<byte>, todo: seq<byte>, code: nat, st: State,
                                      env: seq<Choice>)
    requires dst in st.fs && st.fs[dst] == done
    ensures var o := Copy(dst, todo, code, st, env);
            dst in o.st.fs && o.st.fs[dst] <= done + todo
            && o.st == st.(fs := st.fs[dst := o.st.fs[dst]], status := o.st.status)
            && (o.Finished? && o.st.status == 0 ==> code == 0 && o.st.fs[dst] == done + todo)
    decreases |env|
  {
    assert st.fs[dst := done] == st.fs;
    if env != [] && env[0].Write? {
      var part := Take(todo, env[0].n);
      var st' := st.(fs := st.fs[dst := done + part]);
      CopyWrites(dst, done + part, todo[|part|..], code, st', env[1..]);
      Associate(done, part, todo[|part|..]);
      assert part + todo[|part|..] == todo;
      Overwritten(st.fs, dst, done + part, Copy(dst, todo, code, st, env).st.fs[dst]);
    }
  }

  lemma Overwritten(fs: Files, dst: string, first: seq<byte>, last: seq<byte>)
    ensures fs[dst := first][dst := last] == fs[dst := last]
  {
  }

  /** Every command can be killed before its first step, and every one that can fail can fail there, with any
      code, leaving all as it was. */
  lemma AnyCommandCanFail(p: Prog, st: State, code: FailureCode, rest: seq<Choice>, tools: Tools)
    requires !p.IsComposite()
    ensures Exec(p, st, [], tools) == Killed(st)
    ensures p.MkdirP? || p.CatTo? || p.SizeIs? || p.Mv? || p.Base64To? || p.Cd? || p.Interpret? || p.Head? ==>
              Exec(p, st, [Fault(code)] + rest, tools) == Finished(st.(status := code), rest)
  {
    var env := [Fault(code)] + rest;
    assert env[1..] == rest;
    assert Exec(p, st, env, tools) == Utility(p, st, env, tools);
  }

  /** A copy can be killed, or fail, after any number of bytes. */
  lemma CopyCanStopAnywhere(dst: string, todo: seq<byte>, n: nat, exit: nat, st: State, code: FailureCode)
    requires dst in st.fs
    ensures var cut := st.(fs := st.fs[dst := st.fs[dst] + Take(todo, n)]);
            Copy(dst, todo, exit, st, [Write(n)]) == Killed(cut)
            && Copy(dst, todo, exit, st, [Write(n), Fault(code)]) == Finished(cut.(status := code), [])
  {
    assert [Write(n)][1..] == [] && [Write(n), Fault(code)][1..] == [Fault(code)] && [Fault(code)][1..] == [];
  }

  /** A started program can change any file and be killed, or end with any code. */
  lemma ProgramCanDoAnything(st: State, fs: Files, exit: nat, rest: seq<Choice>)
    requires st.runs != []
    ensures Running(st, [Touch(fs)]) == Killed(st.(fs := fs))
    ensures Running(st, [Program(fs, exit)] + rest) == Finished(Ended(st.(fs := fs), exit), rest)
    ensures Ended(st, exit).status == exit && Ended(st, exit).runs[|st.runs| - 1].code == Some(exit)
  {
    assert [Touch(fs)][1..] == [] && ([Program(fs, exit)] + rest)[1..] == rest;
  }
}
