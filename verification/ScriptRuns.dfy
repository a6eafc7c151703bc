/**
 * What the `write_file` and `run_script` scripts leave behind, for every delivered prefix of their
 * input, every fault of every command and a kill after every step.
 */
module ScriptRuns {
  import opened Common
  import opened ShellMachine
  import opened ScriptText

  predicate Fresh(st: State, tmp: string) {
    tmp !in st.fs && !st.exited
  }

  /** The files other than `tmp`. */
  function Besides(fs: Files, tmp: string): Files {
    fs - {tmp}
  }

  /** `cat > tmp`: touches only `tmp`, and succeeds only with everything that was delivered. */
  lemma CatRuns(tmp: string, st: State, env: seq<Choice>, tools: Tools)
    ensures var o := Exec(CatTo(tmp), st, env, tools);
            Besides(o.st.fs, tmp) == Besides(st.fs, tmp)
            && o.st.exited == st.exited && o.st.runs == st.runs
            && (o.Finished? && o.st.status == 0 ==> tmp in o.st.fs && o.st.fs[tmp] == st.stdin)
  {
    if env != [] && !env[0].Fault? {
      var truncated := st.(fs := st.fs[tmp := []], stdin := []);
      CopyWrites(tmp, [], st.stdin, 0, truncated, env[1..]);
    }
  }

  /** How `l && r` goes on once `l` has ended. */
  function IfDone(l: Outcome, r: Prog, tools: Tools): Outcome {
    if l.Killed? || l.st.exited || l.st.status != 0 then l else Exec(r, l.st, l.rest, tools)
  }

  /** How `l || r` goes on once `l` has ended. */
  function IfFailed(l: Outcome, r: Prog, tools: Tools): Outcome {
    if l.Killed? || l.st.exited || l.st.status == 0 then l else Exec(r, l.st, l.rest, tools)
  }

  /** The part both scripts share, after any first command that touches no file. */
  lemma SizedRuns(tmp: string, size: nat, first: Outcome, st: State, tools: Tools)
    requires Besides(first.st.fs, tmp) == Besides(st.fs, tmp) && !first.st.exited && first.st.runs == st.runs
    requires first.Finished? && first.st.status == 0 ==> tmp in first.st.fs && first.st.fs[tmp] == st.stdin
    ensures var o := IfDone(first, SizeIs(tmp, size), tools);
            Besides(o.st.fs, tmp) == Besides(st.fs, tmp)
            && !o.st.exited && o.st.runs == st.runs
            && (o.Finished? && o.st.status == 0 ==>
                  tmp in o.st.fs && o.st.fs[tmp] == st.stdin && |st.stdin| == size)
  {
  }

  lemma UploadRuns(parent: string, tmp: string, size: nat, st: State, env: seq<Choice>, tools: Tools)
    requires Fresh(st, tmp)
    ensures var o := Exec(Upload(parent, tmp, size), st, env, tools);
            Besides(o.st.fs, tmp) == st.fs && !o.st.exited && o.st.runs == st.runs
            && (o.Finished? && o.st.status == 0 ==>
                  tmp in o.st.fs && o.st.fs[tmp] == st.stdin && |st.stdin| == size)
  {
    var first := Exec(And(MkdirP(parent), CatTo(tmp)), st, env, tools);
    assert Exec(MkdirP(parent), st, env, tools) == Utility(MkdirP(parent), st, env, tools);
    if env != [] {
      CatRuns(tmp, st.(status := 0), env[1..], tools);
    }
    SizedRuns(tmp, size, first, st, tools);
  }

  /** `rc=$?; rm -f tmp; exit $rc` ends with the status it found and removes the file, unless its name
      reads as an option. */
  lemma CleanupRuns(tmp: string, st: State, env: seq<Choice>, tools: Tools)
    requires !st.exited
    ensures var o := Exec(Cleanup(tmp), st, env, tools);
            Besides(o.st.fs, tmp) == Besides(st.fs, tmp) && o.st.runs == st.runs
            && (o.st.fs == st.fs || o.st.fs == Besides(st.fs, tmp))
            && (o.Finished? ==>
                  o.st.exited && o.st.status == st.status
                  && o.st.fs == if OptionLike(tmp) then st.fs else Besides(st.fs, tmp))
  {
    assert Exec(SaveStatus, st, env, tools) == Utility(SaveStatus, st, env, tools);
    if env != [] {
      var saved := st.(rc := st.status, status := 0);
      var removal := Exec(RmF(tmp), saved, env[1..], tools);
      assert removal == Utility(RmF(tmp), saved, env[1..], tools);
      assert Exec(Cleanup(tmp), st, env, tools) == Exec(Seq(RmF(tmp), ExitSaved), saved, env[1..], tools);
      if removal.Finished? {
        assert Exec(ExitSaved, removal.st, removal.rest, tools) == Utility(ExitSaved, removal.st, removal.rest, tools);
      }
    }
  }

  /** A body followed by the cleanup. */
  lemma ThenCleanup(body: Prog, tmp: string, st: State, env: seq<Choice>, tools: Tools)
    requires !Exec(body, st, env, tools).st.exited
    ensures var b := Exec(body, st, env, tools);
            var o := Exec(Seq(body, Cleanup(tmp)), st, env, tools);
            Besides(o.st.fs, tmp) == Besides(b.st.fs, tmp) && o.st.runs == b.st.runs
            && (o.Finished? ==>
                  b.Finished? && o.st.exited && o.st.status == b.st.status
                  && o.st.fs == if OptionLike(tmp) then b.st.fs else Besides(b.st.fs, tmp))
  {
    var b := Exec(body, st, env, tools);
    if b.Finished? {
      CleanupRuns(tmp, b.st, b.rest, tools);
    }
  }

  // ----- utf-8 mode -----

  lemma MoveRuns(tmp: string, dest: string, st: State, env: seq<Choice>, tools: Tools)
    requires tmp != dest && tmp in st.fs && !st.exited
    ensures var o := Exec(Mv(tmp, dest), st, env, tools);
            o.st.exited == st.exited && o.st.runs == st.runs
            && (o.st.fs == st.fs || (o.Finished? && o.st.fs == Besides(st.fs, tmp)[dest := st.fs[tmp]]))
            && (o.Finished? && o.st.status == 0 <==> o.st.fs != st.fs)
            && (o.Finished? && o.st.status == 0 ==> !OptionLike(tmp))
  {
  }

  /**
   * `write_file` in utf-8 mode is atomic. At every moment the files besides the temporary one are the
   * old ones or the old ones with exactly the new content at the destination; a finished script that
   * reports 0 has written it, one that reports anything else has changed nothing, and a partial
   * upload always reports failure. The temporary file is gone whenever its name is not option-like.
   */
  lemma WriteUtf8(parent: string, tmp: string, dest: string, data: seq<byte>, st: State, env: seq<Choice>, tools: Tools)
    requires Fresh(st, tmp) && tmp != dest && st.stdin <= data
    ensures var o := Exec(WriteProg(parent, tmp, dest, |data|, false), st, env, tools);
            (Besides(o.st.fs, tmp) == st.fs || Besides(o.st.fs, tmp) == st.fs[dest := data])
            && (o.Finished? ==>
                  Besides(o.st.fs, tmp) == (if o.st.status == 0 then st.fs[dest := data] else st.fs)
                  && (o.st.status == 0 ==> st.stdin == data && !OptionLike(tmp))
                  && (!OptionLike(tmp) ==> tmp !in o.st.fs))
  {
    var upload := Upload(parent, tmp, |data|);
    var body := And(upload, Mv(tmp, dest));
    UploadRuns(parent, tmp, |data|, st, env, tools);
    var u := Exec(upload, st, env, tools);
    var b := Exec(body, st, env, tools);
    if u.Finished? && u.st.status == 0 {
      assert st.stdin == data;
      MoveRuns(tmp, dest, u.st, u.rest, tools);
      assert b == Exec(Mv(tmp, dest), u.st, u.rest, tools);
      assert Besides(Besides(u.st.fs, tmp)[dest := data], tmp) == st.fs[dest := data];
    } else {
      assert b == u;
    }
    ThenCleanup(body, tmp, st, env, tools);
  }

  // ----- base64 mode -----

  lemma DecodeRuns(tmp: string, dest: string, st: State, env: seq<Choice>, tools: Tools)
    requires tmp != dest && tmp in st.fs && !st.exited
    ensures var o := Exec(Base64To(tmp, dest), st, env, tools);
            var (out, ok) := tools.decode(st.fs[tmp]);
            !o.st.exited && o.st.runs == st.runs
            && (o.st.fs == st.fs || (dest in o.st.fs && o.st.fs == st.fs[dest := o.st.fs[dest]] && o.st.fs[dest] <= out))
            && (o.Finished? && o.st.status == 0 ==> ok && o.st.fs == st.fs[dest := out] && !OptionLike(tmp))
            && (OptionLike(tmp) ==> o.st.fs == st.fs || o.st.fs == st.fs[dest := []])
  {
    assert Exec(Base64To(tmp, dest), st, env, tools) == Utility(Base64To(tmp, dest), st, env, tools);
    if env != [] && !env[0].Fault? && !OptionLike(tmp) {
      var truncated := st.(fs := st.fs[dest := []]);
      var (out, ok) := tools.decode(st.fs[tmp]);
      assert truncated.fs[tmp] == st.fs[tmp];
      CopyWrites(dest, [], out, if ok then 0 else 1, truncated, env[1..]);
      var o := Copy(dest, out, if ok then 0 else 1, truncated, env[1..]);
      assert Exec(Base64To(tmp, dest), st, env, tools) == o && [] + out == out;
      assert st.fs[dest := []][dest := o.st.fs[dest]] == st.fs[dest := o.st.fs[dest]];
    }
  }

  lemma UndoRuns(dest: string, st: State, env: seq<Choice>, tools: Tools)
    requires !st.exited && st.status != 0
    ensures var o := Exec(Group(Seq(RmF(dest), False)), st, env, tools);
            !o.st.exited && o.st.runs == st.runs
            && (o.st.fs == st.fs || o.st.fs == st.fs - {dest})
            && (OptionLike(dest) ==> o.st.fs == st.fs)
            && (o.Finished? ==> o.st.status != 0 && (!OptionLike(dest) ==> o.st.fs == st.fs - {dest}))
  {
    var removal := Exec(RmF(dest), st, env, tools);
    assert removal == Utility(RmF(dest), st, env, tools);
    assert Exec(Group(Seq(RmF(dest), False)), st, env, tools) == Exec(Seq(RmF(dest), False), st, env, tools);
    if removal.Finished? {
      assert Exec(False, removal.st, removal.rest, tools) == Utility(False, removal.st, removal.rest, tools);
    }
  }

  /** What a kill can leave at the destination in base64 mode: what was there, nothing, or a prefix of
      the decoded output. */
  predicate PartlyDecoded(fs: Files, before: Files, dest: string, out: seq<byte>) {
    fs - {dest} == before - {dest}
    && (dest in fs ==> fs[dest] <= out || (dest in before && fs[dest] == before[dest]))
  }

  /** The script up to and including `base64 -d`. */
  lemma UploadAndDecode(parent: string, tmp: string, dest: string, data: seq<byte>, st: State, env: seq<Choice>, tools: Tools)
    requires Fresh(st, tmp) && tmp != dest && st.stdin <= data
    ensures var d := Exec(And(Upload(parent, tmp, |data|), Base64To(tmp, dest)), st, env, tools);
            var (out, ok) := tools.decode(data);
            !d.st.exited && PartlyDecoded(Besides(d.st.fs, tmp), st.fs, dest, out)
            && (d.Finished? && d.st.status == 0 ==>
                  Besides(d.st.fs, tmp) == st.fs[dest := out] && ok && st.stdin == data && !OptionLike(tmp))
            && (OptionLike(tmp) ==> Besides(d.st.fs, tmp) == st.fs || Besides(d.st.fs, tmp) == st.fs[dest := []])
  {
    var upload := Upload(parent, tmp, |data|);
    UploadRuns(parent, tmp, |data|, st, env, tools);
    var u := Exec(upload, st, env, tools);
    var d := Exec(And(upload, Base64To(tmp, dest)), st, env, tools);
    if u.Finished? && u.st.status == 0 {
      assert st.stdin == data;
      DecodeRuns(tmp, dest, u.st, u.rest, tools);
      assert d == Exec(Base64To(tmp, dest), u.st, u.rest, tools);
      if d.st.fs == u.st.fs {
        assert Besides(d.st.fs, tmp) == st.fs;
      } else {
        assert Besides(d.st.fs, tmp) == st.fs[dest := d.st.fs[dest]];
      }
    } else {
      assert d == u;
    }
  }

  /**
   * `write_file` in base64 mode. A finished script that reports 0 has written exactly what the
   * decoder prints for the whole content, which it accepted; one that reports anything else leaves no
   * destination, whichever step failed and whatever was there before. If its name is option-like, the
   * script always fails, and leaves it as it was or empty. No other file changes.
   */
  lemma WriteBase64(parent: string, tmp: string, dest: string, data: seq<byte>, st: State, env: seq<Choice>, tools: Tools)
    requires Fresh(st, tmp) && tmp != dest && st.stdin <= data && (OptionLike(dest) ==> OptionLike(tmp))
    ensures var o := Exec(WriteProg(parent, tmp, dest, |data|, true), st, env, tools);
            var (out, ok) := tools.decode(data);
            PartlyDecoded(Besides(o.st.fs, tmp), st.fs, dest, out)
            && (o.Finished? && !OptionLike(tmp) ==> tmp !in o.st.fs)
            && (o.Finished? && o.st.status == 0 ==>
                  Besides(o.st.fs, tmp) == st.fs[dest := out] && ok && st.stdin == data && !OptionLike(tmp))
            && (o.Finished? && o.st.status != 0 && !OptionLike(dest) ==> Besides(o.st.fs, tmp) == st.fs - {dest})
            && (OptionLike(dest) ==> Besides(o.st.fs, tmp) == st.fs || Besides(o.st.fs, tmp) == st.fs[dest := []])
  {
    var decode := And(Upload(parent, tmp, |data|), Base64To(tmp, dest));
    var undo := Group(Seq(RmF(dest), False));
    var body := Or(decode, undo);
    UploadAndDecode(parent, tmp, dest, data, st, env, tools);
    var d := Exec(decode, st, env, tools);
    var b := Exec(body, st, env, tools);
    if d.Finished? && d.st.status != 0 {
      UndoRuns(dest, d.st, d.rest, tools);
      assert b == Exec(undo, d.st, d.rest, tools);
      assert Besides(d.st.fs - {dest}, tmp) == Besides(d.st.fs, tmp) - {dest};
      assert b.Finished? && !OptionLike(dest) ==> Besides(b.st.fs, tmp) == st.fs - {dest};
      assert OptionLike(dest) ==> b.st.fs == d.st.fs;
    } else {
      assert b == d;
    }
    ThenCleanup(body, tmp, st, env, tools);
  }

  // ----- run_script -----

  lemma InterpretRuns(seconds: nat, interpreter: string, script: string, data: seq<byte>, st: State,
                      env: seq<Choice>, tools: Tools)
    requires script in st.fs && st.fs[script] == data && !st.exited && st.runs == []
    ensures var o := Exec(Interpret(seconds, interpreter, script), st, env, tools);
            !o.st.exited
            && (o.st.runs == [] ==> o.st.fs == st.fs && (o.Finished? ==> o.st.status != 0))
            && (o.st.runs != [] ==>
                  o.st.runs == [Run(Some(data), interpreter, seconds, st.dir,
                                    if o.Finished? then Some(o.st.status) else None)])
  {
    var start := Interpret(seconds, interpreter, script);
    assert Exec(start, st, env, tools) == Utility(start, st, env, tools);
    if env != [] && !env[0].Fault? {
      var run := Run(Some(data), interpreter, seconds, st.dir, None);
      assert st.runs + [run] == [run];
      RunningEnds(st.(runs := [run]), run, env[1..]);
    }
  }

  /** A started program stays the only run, and its exit code is the command's. */
  lemma {:induction false} RunningEnds(st: State, run: Run, env: seq<Choice>)
    requires st.runs == [run] && run.code == None && !st.exited
    ensures var o := Running(st, env);
            !o.st.exited && o.st.runs == [run.(code := if o.Finished? then Some(o.st.status) else None)]
    decreases |env|
  {
    if env != [] && env[0].Touch? {
      RunningEnds(st.(fs := env[0].fs), run, env[1..]);
    }
  }

  /** The script up to the start of the interpreter: on success the whole code is there, and so is the shell. */
  lemma EnterRuns(script: string, data: seq<byte>, st: State, env: seq<Choice>, tools: Tools)
    requires Fresh(st, script) && st.stdin <= data
    ensures var m := Exec(And(And(CatTo(script), SizeIs(script, |data|)), Cd(WORKDIR)), st, env, tools);
            Besides(m.st.fs, script) == st.fs && m.st.runs == st.runs && !m.st.exited
            && (m.Finished? && m.st.status == 0 ==>
                  script in m.st.fs && m.st.fs[script] == st.stdin == data && m.st.dir == WORKDIR)
  {
    var sized := And(CatTo(script), SizeIs(script, |data|));
    CatRuns(script, st, env, tools);
    SizedRuns(script, |data|, Exec(CatTo(script), st, env, tools), st, tools);
    var s := Exec(sized, st, env, tools);
    if s.Finished? && s.st.status == 0 {
      assert Exec(And(sized, Cd(WORKDIR)), st, env, tools) == Exec(Cd(WORKDIR), s.st, s.rest, tools)
          == Utility(Cd(WORKDIR), s.st, s.rest, tools);
    } else {
      assert Exec(And(sized, Cd(WORKDIR)), st, env, tools) == s;
    }
  }

  /**
   * `run_script` never starts the interpreter on anything but the complete code. A finished script
   * has removed the scratch file; its exit code is the interpreter's own if that started, and
   * otherwise it is a failure. As long as it has not started, no other file has changed.
   */
  lemma RunScript(script: string, data: seq<byte>, seconds: nat, interpreter: string, st: State, env: seq<Choice>,
                  tools: Tools)
    requires Fresh(st, script) && !OptionLike(script) && st.stdin <= data && st.runs == []
    ensures var o := Exec(RunProg(script, |data|, seconds, interpreter), st, env, tools);
            (o.st.runs != [] ==>
               st.stdin == data
               && o.st.runs == [Run(Some(data), interpreter, seconds, "/workspace",
                                    if o.Finished? then Some(o.st.status) else o.st.runs[0].code)])
            && (o.st.runs == [] ==> Besides(o.st.fs, script) == st.fs)
            && (o.Finished? ==>
                  script !in o.st.fs
                  && (o.st.runs == [] ==> o.st.status != 0))
  {
    var moved := And(And(CatTo(script), SizeIs(script, |data|)), Cd(WORKDIR));
    var body := And(moved, Interpret(seconds, interpreter, script));
    EnterRuns(script, data, st, env, tools);
    var m := Exec(moved, st, env, tools);
    var b := Exec(body, st, env, tools);
    if m.Finished? && m.st.status == 0 {
      InterpretRuns(seconds, interpreter, script, data, m.st, m.rest, tools);
      assert b == Exec(Interpret(seconds, interpreter, script), m.st, m.rest, tools);
    } else {
      assert b == m;
    }
    ThenCleanup(body, script, st, env, tools);
  }

  // ----- Runs without faults -----

  function Quiet(n: nat): (env: seq<Choice>)
    ensures |env| == n && forall i :: 0 <= i < n ==> env[i] == Go
  {
    seq(n, _ => Go)
  }

  lemma QuietTail(n: nat)
    requires n > 0
    ensures Quiet(n)[1..] == Quiet(n - 1)
  {
  }

  /** `mkdir -p parent` can succeed: an operand that is an option must be one that it answers with 0. */
  predicate MakesParent(parent: string, tools: Tools) {
    OptionLike(parent) ==> tools.mkdirOption(parent) == 0
  }

  lemma QuietCat(file: string, st: State, n: nat, tools: Tools)
    requires n >= 2
    ensures Exec(CatTo(file), st, Quiet(n), tools)
         == Finished(st.(fs := st.fs[file := st.stdin], stdin := [], status := 0), Quiet(n - 2))
  {
    QuietTail(n);
    QuietTail(n - 1);
    var truncated := st.(fs := st.fs[file := []], stdin := []);
    assert [] + st.stdin == st.stdin && st.fs[file := []][file := st.stdin] == st.fs[file := st.stdin];
    assert Copy(file, st.stdin, 0, truncated, Quiet(n - 1))
        == Finished(st.(fs := st.fs[file := st.stdin], stdin := [], status := 0), Quiet(n - 2));
    assert Exec(CatTo(file), st, Quiet(n), tools) == Utility(CatTo(file), st, Quiet(n), tools);
  }

  /** What the size test finds, where nothing fails. */
  function SizeStatus(delivered: seq<byte>, size: nat): nat {
    if |delivered| == size then 0 else 1
  }

  lemma QuietSize(file: string, size: nat, st: State, n: nat, tools: Tools)
    requires file in st.fs && n >= 1
    ensures Exec(SizeIs(file, size), st, Quiet(n), tools)
         == Finished(st.(status := SizeStatus(st.fs[file], size)), Quiet(n - 1))
  {
    QuietTail(n);
    var test := SizeIs(file, size);
    assert Exec(test, st, Quiet(n), tools) == Utility(test, st, Quiet(n), tools);
  }

  lemma QuietUpload(parent: string, tmp: string, size: nat, st: State, n: nat, tools: Tools)
    requires Fresh(st, tmp) && n >= 4 && MakesParent(parent, tools)
    ensures Exec(Upload(parent, tmp, size), st, Quiet(n), tools)
         == Finished(st.(fs := st.fs[tmp := st.stdin], stdin := [], status := SizeStatus(st.stdin, size)), Quiet(n - 4))
  {
    QuietTail(n);
    var mkdir := MkdirP(parent);
    var made := st.(status := 0);
    assert Exec(mkdir, st, Quiet(n), tools) == Utility(mkdir, st, Quiet(n), tools) == Finished(made, Quiet(n - 1));
    var copied := st.(fs := st.fs[tmp := st.stdin], stdin := [], status := 0);
    QuietCat(tmp, made, n - 1, tools);
    AndThen(mkdir, CatTo(tmp), st, Quiet(n), made, Quiet(n - 1), tools);
    QuietSize(tmp, size, copied, n - 3, tools);
    AndThen(And(mkdir, CatTo(tmp)), SizeIs(tmp, size), st, Quiet(n), copied, Quiet(n - 3), tools);
  }

  lemma QuietCleanup(tmp: string, st: State, n: nat, tools: Tools)
    requires !st.exited && n >= 3
    ensures Exec(Cleanup(tmp), st, Quiet(n), tools).Finished?
  {
    QuietTail(n);
    QuietTail(n - 1);
    var saved := st.(rc := st.status, status := 0);
    assert Exec(SaveStatus, st, Quiet(n), tools) == Utility(SaveStatus, st, Quiet(n), tools) == Finished(saved, Quiet(n - 1));
    var removal := Exec(RmF(tmp), saved, Quiet(n - 1), tools);
    assert removal == Utility(RmF(tmp), saved, Quiet(n - 1), tools);
    assert Exec(Seq(RmF(tmp), ExitSaved), saved, Quiet(n - 1), tools)
        == Exec(ExitSaved, removal.st, removal.rest, tools)
        == Utility(ExitSaved, removal.st, removal.rest, tools);
  }

  /** A body that finishes with enough quiet steps left lets the whole script finish. */
  lemma QuietScript(body: Prog, tmp: string, st: State, env: seq<Choice>, s: State, m: nat, tools: Tools)
    requires Exec(body, st, env, tools) == Finished(s, Quiet(m)) && !s.exited && m >= 3
    ensures var o := Exec(Seq(body, Cleanup(tmp)), st, env, tools);
            o.Finished? && o.st.status == s.status
            && o.st.fs == if OptionLike(tmp) then s.fs else Besides(s.fs, tmp)
  {
    QuietCleanup(tmp, s, m, tools);
    CleanupRuns(tmp, s, Quiet(m), tools);
  }

  /** With the whole content delivered and nothing failing, a utf-8 write succeeds, unless the path makes
      the temporary name an option: then it fails and leaves the temporary file behind. */
  lemma QuietWriteUtf8(parent: string, tmp: string, dest: string, st: State, tools: Tools)
    requires Fresh(st, tmp) && tmp != dest && (OptionLike(dest) ==> OptionLike(tmp)) && MakesParent(parent, tools)
    ensures var o := Exec(WriteProg(parent, tmp, dest, |st.stdin|, false), st, Quiet(8), tools);
            o.Finished?
            && (if OptionLike(tmp) then o.st.status == 1 && o.st.fs == st.fs[tmp := st.stdin]
                else o.st.status == 0 && o.st.fs == st.fs[dest := st.stdin])
  {
    var upload := Upload(parent, tmp, |st.stdin|);
    var s := st.(fs := st.fs[tmp := st.stdin], stdin := [], status := 0);
    QuietUpload(parent, tmp, |st.stdin|, st, 8, tools);
    QuietMove(tmp, dest, s, 4, tools);
    var moved := Exec(Mv(tmp, dest), s, Quiet(4), tools);
    AndThen(upload, Mv(tmp, dest), st, Quiet(8), s, Quiet(4), tools);
    assert s.fs - {tmp} == st.fs;
    assert Besides(st.fs[dest := st.stdin], tmp) == st.fs[dest := st.stdin];
    QuietScript(And(upload, Mv(tmp, dest)), tmp, st, Quiet(8), moved.st, 3, tools);
  }

  lemma QuietMove(tmp: string, dest: string, s: State, n: nat, tools: Tools)
    requires tmp in s.fs && n >= 1
    ensures Exec(Mv(tmp, dest), s, Quiet(n), tools)
         == Finished(if OptionLike(tmp) || OptionLike(dest) then s.(status := 1)
                     else s.(fs := (s.fs - {tmp})[dest := s.fs[tmp]], status := 0), Quiet(n - 1))
  {
    QuietTail(n);
    assert Exec(Mv(tmp, dest), s, Quiet(n), tools) == Utility(Mv(tmp, dest), s, Quiet(n), tools);
  }

  function Undo(dest: string): Prog {
    Group(Seq(RmF(dest), False))
  }

  function DecodeOr(parent: string, tmp: string, dest: string, size: nat): Prog {
    Or(And(Upload(parent, tmp, size), Base64To(tmp, dest)), Undo(dest))
  }

  lemma DecodeOrRuns(parent: string, tmp: string, dest: string, st: State, n: nat, tools: Tools)
    requires Fresh(st, tmp) && n >= 4 && MakesParent(parent, tools)
    ensures var s := st.(fs := st.fs[tmp := st.stdin], stdin := [], status := 0);
            Exec(DecodeOr(parent, tmp, dest, |st.stdin|), st, Quiet(n), tools)
            == IfFailed(Exec(Base64To(tmp, dest), s, Quiet(n - 4), tools), Undo(dest), tools)
  {
    var upload := Upload(parent, tmp, |st.stdin|);
    var s := st.(fs := st.fs[tmp := st.stdin], stdin := [], status := 0);
    QuietUpload(parent, tmp, |st.stdin|, st, n, tools);
    assert Exec(And(upload, Base64To(tmp, dest)), st, Quiet(n), tools) == Exec(Base64To(tmp, dest), s, Quiet(n - 4), tools);
  }

  lemma QuietDecode(tmp: string, dest: string, s: State, n: nat, tools: Tools)
    requires tmp in s.fs && tmp != dest && n >= 1
    ensures var d := Exec(Base64To(tmp, dest), s, Quiet(n), tools);
            if OptionLike(tmp) then d == Finished(s.(fs := s.fs[dest := []], status := 1), Quiet(n - 1))
            else if n == 1 then d == Killed(s.(fs := s.fs[dest := []]))
            else
              var (out, ok) := tools.decode(s.fs[tmp]);
              d == Finished(s.(fs := s.fs[dest := out], status := if ok then 0 else 1), Quiet(n - 2))
  {
    var truncated := s.(fs := s.fs[dest := []]);
    var (out, ok) := tools.decode(s.fs[tmp]);
    assert truncated.fs[tmp] == s.fs[tmp];
    assert Exec(Base64To(tmp, dest), s, Quiet(n), tools) == Utility(Base64To(tmp, dest), s, Quiet(n), tools);
    QuietTail(n);
    if n > 1 {
      QuietTail(n - 1);
    }
    assert [] + out == out && s.fs[dest := []][dest := out] == s.fs[dest := out];
  }

  lemma QuietUndo(dest: string, st: State, n: nat, tools: Tools)
    requires !st.exited && n >= 2
    ensures Exec(Undo(dest), st, Quiet(n), tools)
         == Finished(st.(fs := if OptionLike(dest) then st.fs else st.fs - {dest}, status := 1), Quiet(n - 2))
  {
    QuietTail(n);
    QuietTail(n - 1);
    var kept := st.(fs := if OptionLike(dest) then st.fs else st.fs - {dest}, status := 0);
    assert Exec(RmF(dest), st, Quiet(n), tools) == Utility(RmF(dest), st, Quiet(n), tools) == Finished(kept, Quiet(n - 1));
    assert Exec(False, kept, Quiet(n - 1), tools) == Utility(False, kept, Quiet(n - 1), tools);
    assert Exec(Undo(dest), st, Quiet(n), tools) == Exec(Seq(RmF(dest), False), st, Quiet(n), tools);
  }

  /** If the temporary name is an option, a base64 write fails and leaves that file behind; the
      destination is left empty if its name is an option too, and is removed if it is a lone hyphen. */
  lemma QuietWriteBase64OptionLike(parent: string, tmp: string, dest: string, st: State, tools: Tools)
    requires Fresh(st, tmp) && tmp != dest && OptionLike(tmp) && MakesParent(parent, tools)
    ensures var o := Exec(WriteProg(parent, tmp, dest, |st.stdin|, true), st, Quiet(10), tools);
            o.Finished? && o.st.status == 1
            && o.st.fs == if OptionLike(dest) then st.fs[tmp := st.stdin][dest := []] else st.fs[tmp := st.stdin] - {dest}
  {
    var s := st.(fs := st.fs[tmp := st.stdin], stdin := [], status := 0);
    var failed := s.(fs := s.fs[dest := []], status := 1);
    var undone := failed.(fs := if OptionLike(dest) then failed.fs else failed.fs - {dest});
    DecodeOrRuns(parent, tmp, dest, st, 10, tools);
    QuietDecode(tmp, dest, s, 6, tools);
    QuietUndo(dest, failed, 5, tools);
    QuietScript(DecodeOr(parent, tmp, dest, |st.stdin|), tmp, st, Quiet(10), undone, 3, tools);
    assert s.fs[dest := []] - {dest} == s.fs - {dest};
  }

  /** With the whole content delivered and nothing failing, a base64 write succeeds exactly when the
      decoder accepts the content; otherwise it removes the destination. */
  lemma QuietWriteBase64(parent: string, tmp: string, dest: string, st: State, tools: Tools)
    requires Fresh(st, tmp) && tmp != dest && !OptionLike(tmp) && !OptionLike(dest) && MakesParent(parent, tools)
    ensures var o := Exec(WriteProg(parent, tmp, dest, |st.stdin|, true), st, Quiet(11), tools);
            var (out, ok) := tools.decode(st.stdin);
            o.Finished?
            && (if ok then o.st.status == 0 && o.st.fs == st.fs[dest := out]
                else o.st.status == 1 && o.st.fs == st.fs - {dest})
  {
    var s := st.(fs := st.fs[tmp := st.stdin], stdin := [], status := 0);
    var (out, ok) := tools.decode(st.stdin);
    QuietDecodeOr(parent, tmp, dest, st, tools);
    var decoded := s.(fs := s.fs[dest := out]);
    var undone := s.(fs := s.fs[dest := out] - {dest}, status := 1);
    assert Besides(decoded.fs, tmp) == st.fs[dest := out];
    assert Besides(undone.fs, tmp) == st.fs - {dest};
    QuietScript(DecodeOr(parent, tmp, dest, |st.stdin|), tmp, st, Quiet(11), if ok then decoded else undone,
                if ok then 5 else 3, tools);
  }

  lemma QuietDecodeOr(parent: string, tmp: string, dest: string, st: State, tools: Tools)
    requires Fresh(st, tmp) && tmp != dest && !OptionLike(tmp) && !OptionLike(dest) && MakesParent(parent, tools)
    ensures var (out, ok) := tools.decode(st.stdin);
            var s := st.(fs := st.fs[tmp := st.stdin], stdin := [], status := 0);
            Exec(DecodeOr(parent, tmp, dest, |st.stdin|), st, Quiet(11), tools)
            == if ok then Finished(s.(fs := s.fs[dest := out]), Quiet(5))
               else Finished(s.(fs := s.fs[dest := out] - {dest}, status := 1), Quiet(3))
  {
    var s := st.(fs := st.fs[tmp := st.stdin], stdin := [], status := 0);
    var (out, ok) := tools.decode(st.stdin);
    DecodeOrRuns(parent, tmp, dest, st, 11, tools);
    QuietDecode(tmp, dest, s, 7, tools);
    if !ok {
      QuietUndo(dest, s.(fs := s.fs[dest := out], status := 1), 5, tools);
    }
  }

  /** An upload that was cut makes the write fail, even where nothing else does: in utf-8 mode nothing has
      changed, in base64 mode the destination is gone. */
  lemma QuietCutWrite(parent: string, tmp: string, dest: string, size: nat, base64: bool, st: State, tools: Tools)
    requires Fresh(st, tmp) && tmp != dest && !OptionLike(tmp) && !OptionLike(dest) && MakesParent(parent, tools)
    requires |st.stdin| != size
    ensures var o := Exec(WriteProg(parent, tmp, dest, size, base64), st, Quiet(11), tools);
            o.Finished? && o.st.status == 1 && o.st.fs == if base64 then st.fs - {dest} else st.fs
  {
    var upload := Upload(parent, tmp, size);
    var failed := st.(fs := st.fs[tmp := st.stdin], stdin := [], status := 1);
    QuietUpload(parent, tmp, size, st, 11, tools);
    assert Besides(failed.fs, tmp) == st.fs;
    if base64 {
      assert Exec(And(upload, Base64To(tmp, dest)), st, Quiet(11), tools) == Finished(failed, Quiet(7));
      ThenUndo(parent, tmp, dest, size, st, Quiet(11), failed, Quiet(7), tools);
      QuietUndo(dest, failed, 7, tools);
      var undone := failed.(fs := failed.fs - {dest});
      QuietScript(DecodeOr(parent, tmp, dest, size), tmp, st, Quiet(11), undone, 5, tools);
      assert Besides(undone.fs, tmp) == st.fs - {dest};
    } else {
      assert Exec(And(upload, Mv(tmp, dest)), st, Quiet(11), tools) == Finished(failed, Quiet(7));
      QuietScript(And(upload, Mv(tmp, dest)), tmp, st, Quiet(11), failed, 7, tools);
    }
  }

  /** A base64 write is not atomic: a kill as the decoder starts leaves the destination empty, whatever
      it held. */
  lemma KilledBase64Write(parent: string, tmp: string, dest: string, st: State, tools: Tools)
    requires Fresh(st, tmp) && tmp != dest && !OptionLike(tmp) && MakesParent(parent, tools)
    ensures var o := Exec(WriteProg(parent, tmp, dest, |st.stdin|, true), st, Quiet(5), tools);
            o.Killed? && o.st.fs == st.fs[tmp := st.stdin][dest := []]
  {
    var s := st.(fs := st.fs[tmp := st.stdin], stdin := [], status := 0);
    DecodeOrRuns(parent, tmp, dest, st, 5, tools);
    QuietDecode(tmp, dest, s, 1, tools);
  }

  /** Because the group after `||` guards the whole chain, a base64 write whose `mkdir` fails, before
      anything was received, removes the destination that was there, unless its name is an option. */
  lemma FailedMkdirErases(parent: string, tmp: string, dest: string, st: State, code: FailureCode, tools: Tools)
    requires Fresh(st, tmp) && tmp != dest
    ensures var o := Exec(WriteProg(parent, tmp, dest, |st.stdin|, true), st, [Fault(code)] + Quiet(5), tools);
            o.Finished? && o.st.status == 1 && o.st.fs == if OptionLike(dest) then st.fs else st.fs - {dest}
  {
    var env := [Fault(code)] + Quiet(5);
    assert env[1..] == Quiet(5);
    var failed := st.(status := code);
    var undone := st.(fs := if OptionLike(dest) then st.fs else st.fs - {dest}, status := 1);
    FailedMkdir(parent, tmp, dest, st, env, code, tools);
    QuietUndo(dest, failed, 5, tools);
    var body := DecodeOr(parent, tmp, dest, |st.stdin|);
    ThenUndo(parent, tmp, dest, |st.stdin|, st, env, failed, Quiet(5), tools);
    QuietScript(body, tmp, st, env, undone, 3, tools);
    assert Besides(undone.fs, tmp) == undone.fs;
  }

  lemma FailedMkdir(parent: string, tmp: string, dest: string, st: State, env: seq<Choice>, code: FailureCode, tools: Tools)
    requires env != [] && env[0] == Fault(code) && !st.exited
    ensures Exec(And(Upload(parent, tmp, |st.stdin|), Base64To(tmp, dest)), st, env, tools)
         == Finished(st.(status := code), env[1..])
  {
    var failed := Finished(st.(status := code), env[1..]);
    assert Exec(MkdirP(parent), st, env, tools) == Utility(MkdirP(parent), st, env, tools) == failed;
    assert Exec(And(MkdirP(parent), CatTo(tmp)), st, env, tools) == failed;
    assert Exec(Upload(parent, tmp, |st.stdin|), st, env, tools) == failed;
  }

  lemma ThenUndo(parent: string, tmp: string, dest: string, size: nat, st: State, env: seq<Choice>,
                 failed: State, rest: seq<Choice>, tools: Tools)
    requires Exec(And(Upload(parent, tmp, size), Base64To(tmp, dest)), st, env, tools) == Finished(failed, rest)
    requires !failed.exited && failed.status != 0
    ensures Exec(DecodeOr(parent, tmp, dest, size), st, env, tools) == Exec(Undo(dest), failed, rest, tools)
  {
  }

  lemma AndThen(l: Prog, r: Prog, st: State, env: seq<Choice>, s: State, rest: seq<Choice>, tools: Tools)
    requires Exec(l, st, env, tools) == Finished(s, rest) && !s.exited && s.status == 0
    ensures Exec(And(l, r), st, env, tools) == Exec(r, s, rest, tools)
  {
  }

  lemma QuietStart(script: string, seconds: nat, interpreter: string, st: State, n: nat, tools: Tools)
    requires script in st.fs && n >= 2 && st.runs == []
    ensures Exec(Interpret(seconds, interpreter, script), st, Quiet(n), tools)
         == Finished(st.(status := 0, runs := [Run(Some(st.fs[script]), interpreter, seconds, st.dir, Some(0))]),
                     Quiet(n - 2))
    ensures Exec(Cd(WORKDIR), st, Quiet(n), tools) == Finished(st.(status := 0, dir := WORKDIR), Quiet(n - 1))
  {
    QuietTail(n);
    QuietTail(n - 1);
    var start := Interpret(seconds, interpreter, script);
    var run := Run(Some(st.fs[script]), interpreter, seconds, st.dir, None);
    var started := st.(runs := [] + [run]);
    assert Exec(start, st, Quiet(n), tools) == Utility(start, st, Quiet(n), tools) == Running(started, Quiet(n - 1));
    assert Ended(started, 0).runs == [run.(code := Some(0))];
  }

  /** With the whole code delivered and nothing failing, the interpreter does run on it. */
  lemma QuietRunScript(script: string, seconds: nat, interpreter: string, st: State, tools: Tools)
    requires Fresh(st, script) && !OptionLike(script) && st.runs == []
    ensures var o := Exec(RunProg(script, |st.stdin|, seconds, interpreter), st, Quiet(9), tools);
            o.Finished? && o.st.status == 0 && o.st.fs == st.fs
            && o.st.runs == [Run(Some(st.stdin), interpreter, seconds, "/workspace", Some(0))]
  {
    var uploaded := st.(fs := st.fs[script := st.stdin], stdin := [], status := 0);
    var entered := uploaded.(dir := WORKDIR);
    var ran := entered.(runs := [Run(Some(st.stdin), interpreter, seconds, WORKDIR, Some(0))]);
    var sized := And(CatTo(script), SizeIs(script, |st.stdin|));
    var moved := And(sized, Cd(WORKDIR));
    var start := Interpret(seconds, interpreter, script);
    QuietSized(script, |st.stdin|, st, 9, tools);
    QuietStart(script, seconds, interpreter, uploaded, 6, tools);
    QuietStart(script, seconds, interpreter, entered, 5, tools);
    AndThen(sized, Cd(WORKDIR), st, Quiet(9), uploaded, Quiet(6), tools);
    AndThen(moved, start, st, Quiet(9), entered, Quiet(5), tools);
    QuietScript(And(moved, start), script, st, Quiet(9), ran, 3, tools);
    assert Besides(ran.fs, script) == st.fs;
    ThenCleanup(And(moved, start), script, st, Quiet(9), tools);
  }

  lemma QuietSized(file: string, size: nat, st: State, n: nat, tools: Tools)
    requires Fresh(st, file) && n >= 3
    ensures Exec(And(CatTo(file), SizeIs(file, size)), st, Quiet(n), tools)
         == Finished(st.(fs := st.fs[file := st.stdin], stdin := [], status := SizeStatus(st.stdin, size)), Quiet(n - 3))
  {
    var copied := st.(fs := st.fs[file := st.stdin], stdin := [], status := 0);
    QuietCat(file, st, n, tools);
    QuietSize(file, size, copied, n - 2, tools);
    AndThen(CatTo(file), SizeIs(file, size), st, Quiet(n), copied, Quiet(n - 2), tools);
  }

  lemma CatGoes(file: string, st: State, env: seq<Choice>, tools: Tools)
    requires |env| >= 2 && env[0] == Go && env[1] == Go
    ensures Exec(CatTo(file), st, env, tools)
         == Finished(st.(fs := st.fs[file := st.stdin], stdin := [], status := 0), env[2..])
  {
    var truncated := st.(fs := st.fs[file := []], stdin := []);
    assert [] + st.stdin == st.stdin && st.fs[file := []][file := st.stdin] == st.fs[file := st.stdin];
    assert env[1..][1..] == env[2..];
    assert Copy(file, st.stdin, 0, truncated, env[1..])
        == Finished(st.(fs := st.fs[file := st.stdin], stdin := [], status := 0), env[2..]);
    assert Exec(CatTo(file), st, env, tools) == Utility(CatTo(file), st, env, tools);
  }

  lemma ProgramGoes(script: string, seconds: nat, interpreter: string, st: State, env: seq<Choice>, tools: Tools)
    requires |env| >= 2 && env[0] == Go && env[1].Program? && script in st.fs && st.runs == []
    ensures Exec(Interpret(seconds, interpreter, script), st, env, tools)
         == Finished(st.(fs := env[1].fs, status := env[1].exit,
                         runs := [Run(Some(st.fs[script]), interpreter, seconds, st.dir, Some(env[1].exit))]), env[2..])
  {
    var start := Interpret(seconds, interpreter, script);
    var run := Run(Some(st.fs[script]), interpreter, seconds, st.dir, None);
    var started := st.(runs := [] + [run]);
    assert Exec(start, st, env, tools) == Utility(start, st, env, tools) == Running(started, env[1..]);
    assert env[1..][1..] == env[2..];
    assert Ended(started.(fs := env[1].fs), env[1].exit).runs == [run.(code := Some(env[1].exit))];
  }

  lemma EnterGoes(script: string, st: State, env: seq<Choice>, tools: Tools)
    requires Fresh(st, script) && |env| >= 4 && env[0] == Go && env[1] == Go && env[2] == Go && env[3] == Go
    ensures Exec(And(And(CatTo(script), SizeIs(script, |st.stdin|)), Cd(WORKDIR)), st, env, tools)
         == Finished(st.(fs := st.fs[script := st.stdin], stdin := [], status := 0, dir := WORKDIR), env[4..])
  {
    var uploaded := st.(fs := st.fs[script := st.stdin], stdin := [], status := 0);
    var test, cd := SizeIs(script, |st.stdin|), Cd(WORKDIR);
    CatGoes(script, st, env, tools);
    AndThen(CatTo(script), test, st, env, uploaded, env[2..], tools);
    assert env[2..][1..] == env[3..] && env[3..][1..] == env[4..];
    assert Exec(test, uploaded, env[2..], tools) == Utility(test, uploaded, env[2..], tools);
    AndThen(And(CatTo(script), test), cd, st, env, uploaded, env[3..], tools);
    assert Exec(cd, uploaded, env[3..], tools) == Utility(cd, uploaded, env[3..], tools);
  }

  /** Everything goes well until the program ends, as it may. */
  function ProgramEnds(fs: Files, exit: nat): (env: seq<Choice>)
    ensures |env| == 9 && env[..5] == [Go, Go, Go, Go, Go] && env[5] == Program(fs, exit) && env[6..] == Quiet(3)
  {
    [Go, Go, Go, Go, Go, Program(fs, exit)] + Quiet(3)
  }

  /** The script ends with the program's own exit code, and leaves what the program left, but for the
      scratch file. */
  lemma ProgramExitIsReported(script: string, seconds: nat, interpreter: string, st: State, fs: Files, exit: nat,
                              tools: Tools)
    requires Fresh(st, script) && !OptionLike(script) && st.runs == []
    ensures var o := Exec(RunProg(script, |st.stdin|, seconds, interpreter), st, ProgramEnds(fs, exit), tools);
            o.Finished? && o.st.status == exit && o.st.fs == fs - {script}
            && o.st.runs == [Run(Some(st.stdin), interpreter, seconds, "/workspace", Some(exit))]
  {
    var env := ProgramEnds(fs, exit);
    var uploaded := st.(fs := st.fs[script := st.stdin], stdin := [], status := 0);
    var entered := uploaded.(dir := WORKDIR);
    var ended := entered.(fs := fs, status := exit,
                          runs := [Run(Some(st.stdin), interpreter, seconds, WORKDIR, Some(exit))]);
    var moved := And(And(CatTo(script), SizeIs(script, |st.stdin|)), Cd(WORKDIR));
    var body := And(moved, Interpret(seconds, interpreter, script));
    assert env[..5][0] == env[0] && env[..5][1] == env[1] && env[..5][2] == env[2] && env[..5][3] == env[3]
        && env[..5][4] == env[4];
    EnterGoes(script, st, env, tools);
    AndThen(moved, Interpret(seconds, interpreter, script), st, env, entered, env[4..], tools);
    ProgramGoes(script, seconds, interpreter, entered, env[4..], tools);
    assert env[4..][2..] == env[6..];
    QuietScript(body, script, st, env, ended, 3, tools);
    ThenCleanup(body, script, st, env, tools);
  }

  /** Code that was cut on the way is not run, even where nothing fails: the script ends with 1. */
  lemma QuietCutRun(script: string, size: nat, seconds: nat, interpreter: string, st: State, tools: Tools)
    requires Fresh(st, script) && !OptionLike(script) && |st.stdin| != size
    ensures var o := Exec(RunProg(script, size, seconds, interpreter), st, Quiet(9), tools);
            o.Finished? && o.st.status == 1 && o.st.fs == st.fs && o.st.runs == st.runs
  {
    var sized := And(CatTo(script), SizeIs(script, size));
    var body := And(And(sized, Cd(WORKDIR)), Interpret(seconds, interpreter, script));
    var failed := st.(fs := st.fs[script := st.stdin], stdin := [], status := 1);
    QuietSized(script, size, st, 9, tools);
    assert Exec(And(sized, Cd(WORKDIR)), st, Quiet(9), tools) == Finished(failed, Quiet(6));
    assert Exec(body, st, Quiet(9), tools) == Finished(failed, Quiet(6));
    QuietScript(body, script, st, Quiet(9), failed, 6, tools);
    ThenCleanup(body, script, st, Quiet(9), tools);
    assert Besides(failed.fs, script) == st.fs;
  }

  // ----- Exactly when the scripts clean up after themselves -----

  /** No finished run of the script leaves the temporary file. */
  ghost predicate AlwaysRemovesTemp(p: Prog, tmp: string, data: seq<byte>, tools: Tools) {
    forall st: State, env: seq<Choice> ::
      Fresh(st, tmp) && st.stdin <= data && Exec(p, st, env, tools).Finished? ==> tmp !in Exec(p, st, env, tools).st.fs
  }

  /** No finished run that reports failure leaves the destination. */
  ghost predicate FailureRemovesDest(p: Prog, tmp: string, dest: string, data: seq<byte>, tools: Tools) {
    forall st: State, env: seq<Choice> ::
      Fresh(st, tmp) && st.stdin <= data && Exec(p, st, env, tools).Finished? && Exec(p, st, env, tools).st.status != 0
      ==> dest !in Exec(p, st, env, tools).st.fs
  }

  /** If `mkdir` refuses its operand as an option, nothing is ever uploaded. */
  lemma RefusedParent(parent: string, tmp: string, size: nat, st: State, env: seq<Choice>, tools: Tools)
    requires !MakesParent(parent, tools)
    ensures var u := Exec(Upload(parent, tmp, size), st, env, tools);
            u.st == st.(status := u.st.status) && (u.Finished? ==> u.st.status != 0)
  {
    assert Exec(MkdirP(parent), st, env, tools) == Utility(MkdirP(parent), st, env, tools);
  }

  lemma RefusedParentNoTemp(parent: string, tmp: string, dest: string, size: nat, base64: bool, st: State,
                            env: seq<Choice>, tools: Tools)
    requires !MakesParent(parent, tools) && Fresh(st, tmp)
    ensures var o := Exec(WriteProg(parent, tmp, dest, size, base64), st, env, tools);
            o.Finished? ==> tmp !in o.st.fs && o.st.status != 0
  {
    RefusedParent(parent, tmp, size, st, env, tools);
    var u := Exec(Upload(parent, tmp, size), st, env, tools);
    var body := WriteProg(parent, tmp, dest, size, base64).left;
    if base64 {
      assert Exec(And(Upload(parent, tmp, size), Base64To(tmp, dest)), st, env, tools) == u;
      if u.Finished? {
        UndoRuns(dest, u.st, u.rest, tools);
        assert Exec(body, st, env, tools) == Exec(Undo(dest), u.st, u.rest, tools);
      }
    } else {
      assert Exec(body, st, env, tools) == u;
    }
    var b := Exec(body, st, env, tools);
    assert !b.st.exited && tmp !in b.st.fs && (b.Finished? ==> b.st.status != 0);
    ThenCleanup(body, tmp, st, env, tools);
  }

  /**
   * The operands of `mkdir`, `mv`, `base64` and `rm` are not protected by `--`. In either mode the
   * temporary file is always removed if and only if its name is no option or `mkdir` refuses the parent
   * as one, so that it is never made; and a failed base64 write always removes the destination if and
   * only if the destination's own name is no option.
   */
  lemma CleansUpIff(parent: string, tmp: string, dest: string, data: seq<byte>, tools: Tools)
    requires tmp != dest && (OptionLike(dest) ==> OptionLike(tmp))
    ensures AlwaysRemovesTemp(WriteProg(parent, tmp, dest, |data|, false), tmp, data, tools)
       <==> !OptionLike(tmp) || !MakesParent(parent, tools)
    ensures AlwaysRemovesTemp(WriteProg(parent, tmp, dest, |data|, true), tmp, data, tools)
       <==> !OptionLike(tmp) || !MakesParent(parent, tools)
    ensures FailureRemovesDest(WriteProg(parent, tmp, dest, |data|, true), tmp, dest, data, tools) <==> !OptionLike(dest)
  {
    if OptionLike(tmp) && MakesParent(parent, tools) {
      LeavesTemp(parent, tmp, dest, data, tools);
    } else {
      RemovesTemp(parent, tmp, dest, data, tools);
    }
    if OptionLike(dest) {
      LeavesDest(parent, tmp, dest, data, tools);
    } else {
      RemovesDest(parent, tmp, dest, data, tools);
    }
  }

  lemma LeavesTemp(parent: string, tmp: string, dest: string, data: seq<byte>, tools: Tools)
    requires tmp != dest && OptionLike(tmp) && MakesParent(parent, tools)
    ensures !AlwaysRemovesTemp(WriteProg(parent, tmp, dest, |data|, false), tmp, data, tools)
    ensures !AlwaysRemovesTemp(WriteProg(parent, tmp, dest, |data|, true), tmp, data, tools)
  {
    var st := State(map[], data, 0, 0, false, [], [], WORKDIR);
    QuietWriteUtf8(parent, tmp, dest, st, tools);
    assert tmp in Exec(WriteProg(parent, tmp, dest, |data|, false), st, Quiet(8), tools).st.fs;
    QuietWriteBase64OptionLike(parent, tmp, dest, st, tools);
    assert tmp in Exec(WriteProg(parent, tmp, dest, |data|, true), st, Quiet(10), tools).st.fs;
  }

  lemma RemovesTemp(parent: string, tmp: string, dest: string, data: seq<byte>, tools: Tools)
    requires tmp != dest && (OptionLike(dest) ==> OptionLike(tmp))
    requires !OptionLike(tmp) || !MakesParent(parent, tools)
    ensures AlwaysRemovesTemp(WriteProg(parent, tmp, dest, |data|, false), tmp, data, tools)
    ensures AlwaysRemovesTemp(WriteProg(parent, tmp, dest, |data|, true), tmp, data, tools)
  {
    forall st: State, env: seq<Choice> | Fresh(st, tmp) && st.stdin <= data
      ensures var o := Exec(WriteProg(parent, tmp, dest, |data|, false), st, env, tools);
              o.Finished? ==> tmp !in o.st.fs
      ensures var o := Exec(WriteProg(parent, tmp, dest, |data|, true), st, env, tools);
              o.Finished? ==> tmp !in o.st.fs
    {
      if MakesParent(parent, tools) {
        WriteUtf8(parent, tmp, dest, data, st, env, tools);
        WriteBase64(parent, tmp, dest, data, st, env, tools);
      } else {
        RefusedParentNoTemp(parent, tmp, dest, |data|, false, st, env, tools);
        RefusedParentNoTemp(parent, tmp, dest, |data|, true, st, env, tools);
      }
    }
  }

  lemma LeavesDest(parent: string, tmp: string, dest: string, data: seq<byte>, tools: Tools)
    requires tmp != dest && OptionLike(dest)
    ensures !FailureRemovesDest(WriteProg(parent, tmp, dest, |data|, true), tmp, dest, data, tools)
  {
    var st := State(map[dest := []], data, 0, 0, false, [], [], WORKDIR);
    var env := [Fault(1)] + Quiet(5);
    FailedMkdirErases(parent, tmp, dest, st, 1, tools);
    assert Fresh(st, tmp) && dest in Exec(WriteProg(parent, tmp, dest, |data|, true), st, env, tools).st.fs;
  }

  lemma RemovesDest(parent: string, tmp: string, dest: string, data: seq<byte>, tools: Tools)
    requires tmp != dest && !OptionLike(dest)
    ensures FailureRemovesDest(WriteProg(parent, tmp, dest, |data|, true), tmp, dest, data, tools)
  {
    forall st: State, env: seq<Choice> | Fresh(st, tmp) && st.stdin <= data
      ensures var o := Exec(WriteProg(parent, tmp, dest, |data|, true), st, env, tools);
              o.Finished? && o.st.status != 0 ==> dest !in o.st.fs
    {
      WriteBase64(parent, tmp, dest, data, st, env, tools);
      var o := Exec(WriteProg(parent, tmp, dest, |data|, true), st, env, tools);
      assert o.Finished? && o.st.status != 0 ==> dest !in Besides(o.st.fs, tmp);
    }
  }
}
